/** No proper part of a generated name gives the licence back. */
module NameParts {
  import opened Wrappers
  import opened LicenceJson
  import opened LicenceSizes
  import opened JsonTexts
  import opened Text
  import opened CustomServers
  import opened CodeWindows
  import Base64Url
  import Utf8

  // ---- the octets of the printed text, piece by piece ----

  function Flat(pieces: seq<Bytes>): Bytes {
    if pieces == [] then [] else pieces[0] + Flat(pieces[1..])
  }

  lemma {:induction false} FlatSplit(pieces: seq<Bytes>, x: nat)
    requires x < |pieces|
    ensures Flat(pieces) == Flat(pieces[..x]) + (pieces[x] + Flat(pieces[x + 1..]))
  {
    if x > 0 {
      FlatSplit(pieces[1..], x - 1);
      assert pieces[..x][1..] == pieces[1..][..x - 1];
      assert pieces[1..][x..] == pieces[x + 1..];
      Utf8.Associates(pieces[0], Flat(pieces[..x][1..]), pieces[x] + Flat(pieces[x + 1..]));
    }
  }

  lemma {:induction false} Find(pieces: seq<Bytes>, b: nat) returns (x: nat, k: nat)
    requires b < |Flat(pieces)|
    ensures x < |pieces| && k < |pieces[x]| && b == |Flat(pieces[..x])| + k
  {
    if b < |pieces[0]| {
      x, k := 0, b;
    } else {
      x, k := Find(pieces[1..], b - |pieces[0]|);
      assert pieces[..x + 1][1..] == pieces[1..][..x];
      x := x + 1;
    }
  }

  function Tagged(name: string): string {
    "\"" + name + "\":\""
  }

  /** From the end of one value to the next. */
  function Between(name: string): Bytes {
    [34, 44] + Utf8.Encode(Tagged(name))
  }

  function Body(value: string): Bytes {
    Utf8.Encode(Escape(value))
  }

  function Pieces(lic: CustomServer): seq<Bytes> {
    [[123] + Utf8.Encode(Tagged("key")), Body(lic.key), Between("host"), Body(lic.host), Between("api"), Body(lic.api),
     Between("relay"), Body(lic.relay), [34, 125]]
  }

  lemma MemberRegroup(name: string, v: string, c: char, rest: string)
    ensures (['\"'] + (name + ['\"'])) + ([':'] + (['\"'] + (v + ['\"']))) + ([c] + rest)
         == ("\"" + name + "\":\"") + (v + (['\"', c] + rest))
  {
    assert ['\"', c] == ['\"'] + [c];
  }

  lemma MemberText3(name: string, value: string, c: char, rest: string)
    requires NeedsNoEscape(name)
    ensures Member(name, value) + ([c] + rest) == Tagged(name) + (Escape(value) + (['\"', c] + rest))
  {
    EscapeNothing(name);
    MemberRegroup(name, Escape(value), c, rest);
  }

  lemma Octets3(a: string, b: string, c: char, rest: string)
    requires c as int < 128
    ensures Utf8.Encode(a + (b + (['\"', c] + rest)))
         == Utf8.Encode(a) + (Utf8.Encode(b) + ([34, c as int] + Utf8.Encode(rest)))
  {
    Utf8.EncodeConcat(a, b + (['\"', c] + rest));
    Utf8.EncodeConcat(b, ['\"', c] + rest);
    Utf8.EncodeConcat(['\"', c], rest);
    Utf8.EncodeAscii(['\"', c]);
    assert Utf8.Encode(['\"', c]) == [34, c as int];
  }

  /** The octets of a member: its tag, its value, and the quote and the character after it. */
  lemma MemberPieces(name: string, value: string, c: char, rest: string)
    requires NeedsNoEscape(name) && c as int < 128
    ensures Utf8.Encode(Member(name, value) + ([c] + rest))
         == Utf8.Encode(Tagged(name)) + (Body(value) + ([34, c as int] + Utf8.Encode(rest)))
  {
    MemberText3(name, value, c, rest);
    Octets3(Tagged(name), Escape(value), c, rest);
  }

  lemma FlatPair(a: Bytes, b: Bytes, rest: seq<Bytes>)
    ensures Flat([a, b] + rest) == a + (b + Flat(rest))
  {
    assert ([a, b] + rest)[1..] == [b] + rest && ([b] + rest)[1..] == rest;
  }

  /** A comma, a member and the pieces after it are two pieces more. */
  lemma OneMember(name: string, value: string, c: char, text: string, o: Bytes, pieces: seq<Bytes>)
    requires NeedsNoEscape(name) && c as int < 128
    requires [34, c as int] + Utf8.Encode(text) == Flat(pieces)
    ensures o + Utf8.Encode(Member(name, value) + ([c] + text))
         == Flat([o + Utf8.Encode(Tagged(name)), Body(value)] + pieces)
  {
    MemberPieces(name, value, c, text);
    FlatPair(o + Utf8.Encode(Tagged(name)), Body(value), pieces);
    Utf8.Associates(o, Utf8.Encode(Tagged(name)), Body(value) + Flat(pieces));
  }

  lemma RelayPieces(lic: CustomServer)
    ensures [34, 44] + Utf8.Encode(FromRelay(lic)) == Flat([Between("relay"), Body(lic.relay)] + [[34, 125]])
  {
    assert ['}'] + "" == ['}'] && [[34, 125]][1..] == [];
    OneMember("relay", lic.relay, '}', "", [34, 44], [[34, 125]]);
  }

  lemma ApiPieces(lic: CustomServer, pieces: seq<Bytes>)
    requires [34, 44] + Utf8.Encode(FromRelay(lic)) == Flat(pieces)
    ensures [34, 44] + Utf8.Encode(FromApi(lic)) == Flat([Between("api"), Body(lic.api)] + pieces)
  {
    OneMember("api", lic.api, ',', FromRelay(lic), [34, 44], pieces);
  }

  lemma HostPieces(lic: CustomServer, pieces: seq<Bytes>)
    requires [34, 44] + Utf8.Encode(FromApi(lic)) == Flat(pieces)
    ensures [34, 44] + Utf8.Encode(FromHost(lic)) == Flat([Between("host"), Body(lic.host)] + pieces)
  {
    OneMember("host", lic.host, ',', FromApi(lic), [34, 44], pieces);
  }

  lemma KeyPieces(lic: CustomServer, pieces: seq<Bytes>)
    requires [34, 44] + Utf8.Encode(FromHost(lic)) == Flat(pieces)
    ensures Utf8.Encode(Print(lic)) == Flat([[123] + Utf8.Encode(Tagged("key")), Body(lic.key)] + pieces)
  {
    OneMember("key", lic.key, ',', FromHost(lic), [123], pieces);
    BraceOctets(FromKey(lic));
  }

  lemma BraceOctets(body: string)
    ensures Utf8.Encode(['{'] + body) == [123] + Utf8.Encode(body)
  {
    assert (['{'] + body)[1..] == body;
  }

  lemma JoinedPieces(a: Bytes, b: Bytes, c: Bytes, d: Bytes, e: Bytes, f: Bytes, g: Bytes, h: Bytes, i: Bytes)
    ensures [a, b] + ([c, d] + ([e, f] + ([g, h] + [i]))) == [a, b, c, d, e, f, g, h, i]
  {
  }

  lemma TextPieces(lic: CustomServer)
    ensures Utf8.Encode(Print(lic)) == Flat(Pieces(lic))
  {
    var relay := [Between("relay"), Body(lic.relay)] + [[34, 125]];
    var api := [Between("api"), Body(lic.api)] + relay;
    var host := [Between("host"), Body(lic.host)] + api;
    RelayPieces(lic);
    ApiPieces(lic, relay);
    HostPieces(lic, api);
    KeyPieces(lic, host);
    JoinedPieces([123] + Utf8.Encode(Tagged("key")), Body(lic.key), Between("host"), Body(lic.host), Between("api"),
                 Body(lic.api), Between("relay"), Body(lic.relay), [34, 125]);
  }

  // ---- what the pieces are made of ----

  /** A quote, a comma, a colon, a closing brace or a letter. */
  predicate Solid(c: Byte) {
    c in {34, 44, 58, 125} || 97 <= c <= 122
  }

  /** What a JSON text can start with. */
  predicate Starts(c: Byte) {
    c in {123, 32, 10, 13, 9}
  }

  lemma TaggedOctets(name: string)
    requires IsName(name) && forall i | 0 <= i < |name| :: 'a' <= name[i] <= 'z'
    ensures var o := Utf8.Encode(Tagged(name));
            && |o| == |name| + 4 && o[0] == 34 && o[|o| - 1] == 34
            && (forall i | 0 <= i < |o| :: Solid(o[i]))
            && (forall i | 0 <= i < |name| :: o[1 + i] == name[i] as int)
  {
    Utf8.EncodeAscii(Tagged(name));
  }

  /** At least a space; and a quote only behind a backslash. */
  ghost predicate IsBody(b: Bytes) {
    && (forall i | 0 <= i < |b| :: b[i] >= 32)
    && (forall i | 0 <= i < |b| && b[i] == 34 :: i > 0 && b[i - 1] == 92)
  }

  lemma BodyOfChar(c: char)
    ensures IsBody(Utf8.Encode(EscapeChar(c))) && Utf8.Encode(EscapeChar(c)) != []
  {
    var e := EscapeChar(c);
    if c as int < 128 {
      AsciiEscape(c);
      Utf8.EncodeAscii(e);
    } else {
      assert e == [c] && e[1..] == "";
      assert Utf8.Encode(e) == Utf8.EncodeChar(c);
      WideOctets(c);
    }
  }

  lemma AsciiEscape(c: char)
    requires c as int < 128
    ensures var e := EscapeChar(c);
            && e != "" && IsAscii(e)
            && (forall i | 0 <= i < |e| :: e[i] as int >= 32)
            && (forall i | 0 <= i < |e| && e[i] == '\"' :: i > 0 && e[i - 1] == '\\')
  {
  }

  lemma WideOctets(c: char)
    requires c as int >= 128
    ensures forall i | 0 <= i < |Utf8.EncodeChar(c)| :: Utf8.EncodeChar(c)[i] >= 128
  {
  }

  lemma BodyConcat(a: Bytes, b: Bytes)
    requires IsBody(a) && IsBody(b)
    ensures IsBody(a + b)
  {
  }

  lemma {:induction false} BodyOfValue(value: string)
    ensures IsBody(Body(value)) && (value == "" <==> Body(value) == [])
  {
    if value != "" {
      BodyOfValue(value[1..]);
      BodyOfChar(value[0]);
      Utf8.EncodeConcat(EscapeChar(value[0]), Escape(value[1..]));
      BodyConcat(Utf8.Encode(EscapeChar(value[0])), Body(value[1..]));
    }
  }

  // ---- no text starts between the values ----

  /** The two octets stand next to each other outside the values, or at their beginning. */
  predicate Framing(a: Byte, b: Byte) {
    (Solid(a) || a == 123) && (Solid(b) || (a == 34 && b >= 32) || (a == 125 && b == 0))
  }

  lemma FramingByOne(a: Byte, b: Byte)
    requires Framing(a, b)
    ensures !Starts(a % 4 * 64 + b / 4)
  {
  }

  lemma FramingByTwo(a: Byte, b: Byte)
    requires Framing(a, b)
    ensures !Starts(a % 16 * 16 + b / 16)
  {
    assert a == 34 ==> a % 16 == 2;
  }

  lemma FramingByThree(a: Byte, b: Byte)
    requires Framing(a, b)
    ensures !Starts(a % 64 * 4 + b / 64)
  {
    assert a % 64 >= 33;
  }

  lemma FramingDoesNotStart(a: Byte, b: Byte, r: nat)
    requires Framing(a, b) && 1 <= r <= 3
    ensures !Starts(Mixed(a, b, r))
  {
    if r == 1 {
      FramingByOne(a, b);
    } else if r == 2 {
      FramingByTwo(a, b);
    } else {
      FramingByThree(a, b);
    }
  }

  // ---- where an octet of the text stands ----

  lemma {:induction false} PieceAt(pieces: seq<Bytes>, x: nat, k: nat)
    requires x < |pieces| && k < |pieces[x]|
    ensures var b := |Flat(pieces[..x])| + k; b < |Flat(pieces)| && Flat(pieces)[b] == pieces[x][k]
  {
    FlatSplit(pieces, x);
  }

  lemma NextPiece(pieces: seq<Bytes>, x: nat)
    requires x < |pieces|
    ensures |Flat(pieces[..x + 1])| == |Flat(pieces[..x])| + |pieces[x]|
  {
    var front := pieces[..x + 1];
    FlatSplit(front, x);
    assert front[..x] == pieces[..x] && front[x + 1..] == [];
  }

  /** A piece outside the values; the last one ends the object. */
  ghost predicate IsFrame(p: Bytes, x: nat) {
    && |p| >= 2 && (x < 8 ==> p[|p| - 1] == 34) && (x == 8 ==> p == [34, 125])
    && (forall k | 0 <= k < |p| :: Solid(p[k]) || (x == 0 && k == 0 && p[k] == 123))
  }

  /** The end of a value, a comma, and the beginning of one of three names. */
  ghost predicate Separates(p: Bytes) {
    && |p| >= 8 && p[0] == 34 && p[1] == 44 && p[2] == 34
    && (|| (p[3] == 104 && p[4] == 111 && p[5] == 115 && p[6] == 116 && p[7] == 34)
        || (p[3] == 97 && p[4] == 112 && p[5] == 105)
        || (p[3] == 114 && p[4] == 101 && p[5] == 108 && p[6] == 97))
  }

  /** Frames and values by turns. */
  ghost predicate IsLayout(pieces: seq<Bytes>) {
    && |pieces| == 9
    && (forall x | 0 <= x < 9 && x % 2 == 0 :: IsFrame(pieces[x], x))
    && (forall x | 0 <= x < 9 && x % 2 == 1 :: IsBody(pieces[x]))
    && Separates(pieces[2]) && Separates(pieces[4]) && Separates(pieces[6])
  }

  lemma OpeningFrame(o: Bytes)
    requires |o| == 7 && o[6] == 34 && forall i | 0 <= i < |o| :: Solid(o[i])
    ensures IsFrame([123] + o, 0)
  {
  }

  lemma BetweenFrame(name: string, x: nat)
    requires 0 < x < 8 && IsName(name) && forall i | 0 <= i < |name| :: 'a' <= name[i] <= 'z'
    ensures IsFrame(Between(name), x)
    ensures |Between(name)| == |name| + 6 && Between(name)[..3] == [34, 44, 34]
    ensures forall i | 0 <= i < |name| :: Between(name)[3 + i] == name[i] as int
    ensures Between(name)[3 + |name|] == 34
  {
    TaggedOctets(name);
    var o := Utf8.Encode(Tagged(name));
    assert o[1 + |name|] == 34 by {
      Utf8.EncodeAscii(Tagged(name));
    }
    assert forall i | 2 <= i < |o| + 2 :: Between(name)[i] == o[i - 2];
  }

  lemma HostSeparates(name: string)
    requires name == "host"
    ensures IsFrame(Between(name), 2) && Separates(Between(name))
  {
    BetweenFrame(name, 2);
    ThirdIsQuote(Between(name));
    assert Between(name)[3] == name[0] as int && Between(name)[4] == name[1] as int;
    assert Between(name)[5] == name[2] as int && Between(name)[6] == name[3] as int;
  }

  lemma ApiSeparates(name: string)
    requires name == "api"
    ensures IsFrame(Between(name), 4) && Separates(Between(name))
  {
    BetweenFrame(name, 4);
    ThirdIsQuote(Between(name));
    assert Between(name)[3] == name[0] as int && Between(name)[4] == name[1] as int;
    assert Between(name)[5] == name[2] as int;
  }

  lemma RelaySeparates(name: string)
    requires name == "relay"
    ensures IsFrame(Between(name), 6) && Separates(Between(name))
  {
    BetweenFrame(name, 6);
    ThirdIsQuote(Between(name));
    assert Between(name)[3] == name[0] as int && Between(name)[4] == name[1] as int;
    assert Between(name)[5] == name[2] as int && Between(name)[6] == name[3] as int;
  }

  lemma ThirdIsQuote(p: Bytes)
    requires |p| >= 3 && p[..3] == [34, 44, 34]
    ensures p[0] == 34 && p[1] == 44 && p[2] == 34
  {
    assert p[..3][0] == p[0] && p[..3][1] == p[1] && p[..3][2] == p[2];
  }

  lemma KeyFrame()
    ensures IsFrame([123] + Utf8.Encode(Tagged("key")), 0)
  {
    Names();
    TaggedOctets("key");
    OpeningFrame(Utf8.Encode(Tagged("key")));
  }

  lemma LayoutOfParts(p: seq<Bytes>, lic: CustomServer)
    requires |p| == 9 && IsFrame(p[0], 0) && IsFrame(p[2], 2) && IsFrame(p[4], 4) && IsFrame(p[6], 6)
    requires p[8] == [34, 125] && Separates(p[2]) && Separates(p[4]) && Separates(p[6])
    requires p[1] == Body(lic.key) && p[3] == Body(lic.host) && p[5] == Body(lic.api) && p[7] == Body(lic.relay)
    ensures IsLayout(p)
  {
    assert IsFrame(p[8], 8);
    BodyOfValue(lic.key);
    BodyOfValue(lic.host);
    BodyOfValue(lic.api);
    BodyOfValue(lic.relay);
  }

  lemma LayoutOf(lic: CustomServer)
    ensures IsLayout(Pieces(lic))
  {
    KeyFrame();
    HostSeparates("host");
    ApiSeparates("api");
    RelaySeparates("relay");
    LayoutOfParts(Pieces(lic), lic);
  }

  lemma AllPrintable(pieces: seq<Bytes>, b: nat)
    requires IsLayout(pieces) && b < |Flat(pieces)|
    ensures Flat(pieces)[b] >= 32
  {
    var x, k := Find(pieces, b);
    PieceAt(pieces, x, k);
    assert if x % 2 == 0 then IsFrame(pieces[x], x) else IsBody(pieces[x]);
  }

  lemma {:induction false} FlatGrows(pieces: seq<Bytes>, x: nat, y: nat)
    requires x <= y <= |pieces|
    ensures |Flat(pieces[..x])| <= |Flat(pieces[..y])|
    decreases y
  {
    if x < y {
      FlatGrows(pieces, x, y - 1);
      NextPiece(pieces, y - 1);
    }
  }

  lemma LastPiece(pieces: seq<Bytes>)
    requires IsLayout(pieces)
    ensures |Flat(pieces)| == |Flat(pieces[..8])| + 2
  {
    FlatSplit(pieces, 8);
    assert pieces[9..] == [];
    assert IsFrame(pieces[8], 8);
  }

  /** Before the last piece the text goes on. */
  lemma GoesOn(pieces: seq<Bytes>, x: nat, k: nat)
    requires IsLayout(pieces) && x < 8 && k < |pieces[x]|
    ensures |Flat(pieces[..x])| + k + 1 < |Flat(pieces)|
  {
    LastPiece(pieces);
    NextPiece(pieces, x);
    FlatGrows(pieces, x + 1, 8);
  }

  lemma FirstPiece(pieces: seq<Bytes>, x: nat)
    requires IsLayout(pieces) && x <= 9
    ensures |Flat(pieces[..x])| > 0 <==> x > 0
  {
    if x > 0 {
      assert IsFrame(pieces[0], 0);
      NextPiece(pieces, 0);
      FlatGrows(pieces, 1, x);
    }
  }

  /** Outside the values: the octet and the one behind it. */
  lemma InFrame(pieces: seq<Bytes>, x: nat, k: nat)
    requires IsLayout(pieces) && x < 9 && x % 2 == 0 && k < |pieces[x]|
    ensures var d, b := Flat(pieces), |Flat(pieces[..x])| + k;
            b < |d| && Framing(d[b], At(d, b + 1)) && (b > 0 ==> Solid(d[b]))
  {
    var b := |Flat(pieces[..x])| + k;
    assert IsFrame(pieces[x], x);
    PieceAt(pieces, x, k);
    LastPiece(pieces);
    FirstPiece(pieces, x);
    if k + 1 < |pieces[x]| {
      PieceAt(pieces, x, k + 1);
    } else if x < 8 {
      GoesOn(pieces, x, k);
      AllPrintable(pieces, b + 1);
    }
  }

  /** A stretch of d. */
  ghost predicate Holds(d: Bytes, start: nat, p: Bytes) {
    start + |p| <= |d| && forall k | 0 <= k < |p| :: d[start + k] == p[k]
  }

  lemma HoldsPiece(pieces: seq<Bytes>, x: nat)
    requires x < |pieces|
    ensures Holds(Flat(pieces), |Flat(pieces[..x])|, pieces[x])
  {
    FlatSplit(pieces, x);
  }

  /** A value in the text, from start on, and what follows it. */
  ghost predicate IsField(d: Bytes, start: nat, body: Bytes, next: Bytes) {
    && IsBody(body) && start > 0 && Holds(d, start, body) && Holds(d, start + |body|, next)
    && (Separates(next) || (next == [34, 125] && |d| == start + |body| + 2))
  }

  lemma FieldAt(pieces: seq<Bytes>, x: nat)
    requires IsLayout(pieces) && x < 8 && x % 2 == 1
    ensures IsField(Flat(pieces), |Flat(pieces[..x])|, pieces[x], pieces[x + 1])
  {
    FirstPiece(pieces, x);
    NextPiece(pieces, x);
    HoldsPiece(pieces, x);
    HoldsPiece(pieces, x + 1);
    LastPiece(pieces);
    assert x + 1 in {2, 4, 6, 8};
    assert x + 1 == 8 ==> IsFrame(pieces[x + 1], x + 1);
  }

  /** A value that is not empty adds to the least size of a text. */
  ghost predicate Costs(body: Bytes, least: nat) {
    body != [] ==> least >= 10 + |body|
  }

  ghost predicate Needs(pieces: seq<Bytes>, least: nat) {
    forall x | 0 <= x < |pieces| && x % 2 == 1 :: Costs(pieces[x], least)
  }

  lemma NeedsOfParts(p: seq<Bytes>, least: nat)
    requires |p| == 9 && Costs(p[1], least) && Costs(p[3], least) && Costs(p[5], least) && Costs(p[7], least)
    ensures Needs(p, least)
  {
  }

  lemma CostOfValue(value: string, least: nat)
    requires value != "" ==> least >= 10 + Size(Escape(value))
    ensures Costs(Body(value), least)
  {
    BodyOfValue(value);
  }

  lemma NeedsFrom(p: seq<Bytes>, lic: CustomServer, least: nat)
    requires |p| == 9 && p[1] == Body(lic.key) && p[3] == Body(lic.host) && p[5] == Body(lic.api)
    requires p[7] == Body(lic.relay)
    requires lic.key != "" ==> least >= 10 + Size(Escape(lic.key))
    requires lic.host != "" ==> least >= 10 + Size(Escape(lic.host))
    requires lic.api != "" ==> least >= 10 + Size(Escape(lic.api))
    requires lic.relay != "" ==> least >= 10 + Size(Escape(lic.relay))
    ensures Needs(p, least)
  {
    CostOfValue(lic.key, least);
    CostOfValue(lic.host, least);
    CostOfValue(lic.api, least);
    CostOfValue(lic.relay, least);
    NeedsOfParts(p, least);
  }

  lemma SliceIsLong(y: Bytes, lic: CustomServer)
    requires FromSlice(y) == Some(lic)
    ensures |y| >= LeastSize(lic)
  {
    DecodedSize(y);
    TextIsLong(Utf8.Decode(y).value, lic);
  }

  /** The octets give the licence only if there are enough of them. */
  ghost predicate Enough(y: Bytes, lic: CustomServer, least: nat) {
    FromSlice(y) == Some(lic) ==> |y| >= least
  }

  lemma EnoughOctets(y: Bytes, lic: CustomServer)
    ensures Enough(y, lic, LeastSize(lic))
  {
    if FromSlice(y) == Some(lic) {
      SliceIsLong(y, lic);
    }
  }

  /** A bound for these octets: the printed text is less than a signature longer, and every value adds to it. */
  lemma Bound(lic: CustomServer, y: Bytes, z: Bytes) returns (least: nat)
    ensures Enough(y, lic, least) && Enough(z, lic, least)
    ensures |Utf8.Encode(Print(lic))| < least + 64
    ensures lic.key != "" ==> least >= 10 + Size(Escape(lic.key))
    ensures lic.host != "" ==> least >= 10 + Size(Escape(lic.host))
    ensures lic.api != "" ==> least >= 10 + Size(Escape(lic.api))
    ensures lic.relay != "" ==> least >= 10 + Size(Escape(lic.relay))
  {
    least := LeastSize(lic);
    EnoughOctets(y, lic);
    EnoughOctets(z, lic);
    PrintIsShort(lic);
    FieldCosts(lic);
  }

  /** An octet of the text is outside the values or in one of them. */
  lemma Locate(pieces: seq<Bytes>, b: nat) returns (x: nat, start: nat)
    requires IsLayout(pieces) && b < |Flat(pieces)|
    ensures x < 9 && b >= start
    ensures var d := Flat(pieces);
            if x % 2 == 1 then IsField(d, start, pieces[x], pieces[x + 1]) && b < start + |pieces[x]|
            else Framing(d[b], At(d, b + 1)) && (b > 0 ==> Solid(d[b]))
  {
    var k;
    x, k := Find(pieces, b);
    start := |Flat(pieces[..x])|;
    if x % 2 == 1 {
      FieldAt(pieces, x);
    } else {
      InFrame(pieces, x, k);
    }
  }

  // ---- what holds of the octets of every text of a licence ----

  lemma SliceStarts(y: Bytes)
    requires FromSlice(y).Some?
    ensures y != [] && Starts(y[0])
  {
    Utf8.FirstChar(y);
    FirstCharacters(Utf8.Decode(y).value);
  }

  lemma SliceHasNoBackspace(y: Bytes, n: nat)
    requires FromSlice(y).Some? && n < |y|
    ensures y[n] != 8
  {
    if y[n] == 8 {
      Utf8.AsciiIsKept(y, n);
      TextsAreClean(Utf8.Decode(y).value);
    }
  }

  /** Two octets that are a character of their own. */
  lemma SliceHasPair(y: Bytes, n: nat)
    requires FromSlice(y).Some? && n < |y| && 0xC0 <= y[n] < 0xE0
    ensures y[n] >= 0xC2 && n + 1 < |y| && Utf8.IsTail(y[n + 1])
    ensures n + 2 < |y| ==> !Utf8.IsTail(y[n + 2])
  {
    Utf8.FromLead(y, n);
    var z := y[n..];
    assert Utf8.Scalar(z, 2).Some?;
    assert z[2..] == y[n + 2..];
  }

  // ---- decoding from the middle of a group ----

  /** Mixtures of neighbouring octets of d, from octet b on. */
  ghost predicate MixedFrom(d: Bytes, b: nat, r: nat, y: Bytes)
    requires 1 <= r <= 3
  {
    b + |y| <= |d| && forall n | 0 <= n < |y| :: y[n] == Mixed(At(d, b + n), At(d, b + n + 1), r)
  }

  lemma PairFails(y: Bytes, n: nat)
    requires n + 1 < |y| && 0xC0 <= y[n] < 0xE0 && (y[n] < 0xC2 || !Utf8.IsTail(y[n + 1]))
    ensures FromSlice(y).None?
  {
    if FromSlice(y).Some? {
      SliceHasPair(y, n);
    }
  }

  lemma ThirdFails(y: Bytes, n: nat)
    requires n + 2 < |y| && 0xC0 <= y[n] < 0xE0 && Utf8.IsTail(y[n + 2])
    ensures FromSlice(y).None?
  {
    if FromSlice(y).Some? {
      SliceHasPair(y, n);
    }
  }

  lemma BackspaceFails(y: Bytes, n: nat)
    requires n < |y| && y[n] == 8
    ensures FromSlice(y).None?
  {
    if FromSlice(y).Some? {
      SliceHasNoBackspace(y, n);
    }
  }

  /** Mixtures that show more than six octets of what separates two values are no text. */
  lemma SeparatorFails(p: Bytes, r: nat, y: Bytes, u: nat)
    requires 1 <= r <= 3 && Separates(p) && u + 6 < |y|
    requires forall n | 0 <= n < 7 :: y[u + n] == Mixed(p[n], p[n + 1], r)
    ensures FromSlice(y).None?
  {
    assert y[u + 1] == Mixed(p[1], p[2], r) && y[u + 2] == Mixed(p[2], p[3], r);
    if r == 1 {
      BackspaceFails(y, u + 1);
    } else if r == 2 {
      CommaByTwo(p[3]);
      PairFails(y, u + 1);
    } else {
      NameFails(p, y, u);
    }
  }

  lemma CommaByTwo(letter: Byte)
    requires letter < 128
    ensures Mixed(44, 34, 2) == 0xC2 && Mixed(34, letter, 2) < 0x80
  {
  }

  lemma NameFails(p: Bytes, y: Bytes, u: nat)
    requires Separates(p) && u + 6 < |y|
    requires forall n | 0 <= n < 7 :: y[u + n] == Mixed(p[n], p[n + 1], 3)
    ensures FromSlice(y).None?
  {
    assert y[u + 3] == Mixed(p[3], p[4], 3) && y[u + 4] == Mixed(p[4], p[5], 3);
    assert y[u + 5] == Mixed(p[5], p[6], 3) && y[u + 6] == Mixed(p[6], p[7], 3);
    if p[3] == 104 {
      PairFails(y, u + 5);
    } else if p[3] == 97 {
      PairFails(y, u + 4);
    } else {
      ThirdFails(y, u + 3);
    }
  }

  /** From inside a value: too short for the licence, or showing too much of what follows. */
  lemma MixedFieldFails(d: Bytes, start: nat, body: Bytes, next: Bytes, b: nat, r: nat, y: Bytes, lic: CustomServer)
    requires 1 <= r <= 3 && MixedFrom(d, b, r, y) && IsField(d, start, body, next)
    requires start <= b < start + |body| && Enough(y, lic, 10 + |body|)
    ensures FromSlice(y) != Some(lic)
  {
    var u := start + |body| - b;
    if Separates(next) && u + 6 < |y| {
      assert forall n | 0 <= n < 8 :: d[start + |body| + n] == next[n];
      assert b + u == start + |body|;
      SeparatorFails(next, r, y, u);
    }
  }

  /** Mixtures from outside the values start no text. */
  lemma MixedFrameFails(d: Bytes, b: nat, r: nat, y: Bytes)
    requires 1 <= r <= 3 && MixedFrom(d, b, r, y) && b < |d| && Framing(d[b], At(d, b + 1))
    ensures FromSlice(y).None?
  {
    FramingDoesNotStart(d[b], At(d, b + 1), r);
    if FromSlice(y).Some? {
      SliceStarts(y);
    }
  }

  lemma MixedFails(pieces: seq<Bytes>, b: nat, r: nat, y: Bytes, lic: CustomServer, least: nat)
    requires IsLayout(pieces) && Needs(pieces, least) && Enough(y, lic, least)
    requires 1 <= r <= 3 && MixedFrom(Flat(pieces), b, r, y)
    ensures FromSlice(y) != Some(lic)
  {
    if b < |Flat(pieces)| {
      var x, start := Locate(pieces, b);
      if x % 2 == 1 {
        assert Costs(pieces[x], least);
        MixedFieldFails(Flat(pieces), start, pieces[x], pieces[x + 1], b, r, y, lic);
      } else {
        MixedFrameFails(Flat(pieces), b, r, y);
      }
    } else {
      NothingIsNoText(y);
    }
  }

  lemma NothingIsNoText(y: Bytes)
    requires y == []
    ensures FromSlice(y).None?
  {
    if FromSlice(y).Some? {
      SliceStarts(y);
    }
  }

  // ---- decoding from the beginning of a group ----

  function Blanks(y: Bytes): (n: nat)
    ensures n <= |y|
    ensures forall i | 0 <= i < n :: y[i] in {32, 10, 13, 9}
    ensures n < |y| ==> y[n] !in {32, 10, 13, 9}
  {
    if y == [] || y[0] !in {32, 10, 13, 9} then 0 else 1 + Blanks(y[1..])
  }

  lemma {:induction false} BlanksSkipped(y: Bytes)
    requires Utf8.Decode(y).Some?
    ensures Utf8.Decode(y[Blanks(y)..]) == Some(SkipSpace(Utf8.Decode(y).value))
  {
    if y == [] {
      assert y[0..] == y;
    } else {
      Utf8.FirstChar(y);
      if y[0] in {32, 10, 13, 9} {
        BlanksSkipped(y[1..]);
        assert y[1..][Blanks(y[1..])..] == y[Blanks(y)..];
      } else {
        assert y[0..] == y;
      }
    }
  }

  /** The brace that opens the object, and the first octet inside it. */
  lemma SliceOpens(y: Bytes) returns (k: nat, n: nat)
    requires FromSlice(y).Some?
    ensures k < n < |y| && y[k] == 123 && (forall i | k < i < n :: y[i] in {32, 10, 13, 9})
    ensures y[n] == 125 || y[n] == 34
    ensures y[n] == 125 ==> FromSlice(y) == Some(CustomServer("", "", "", ""))
    ensures y[n] == 34 ==> IsNamed(y[n + 1..])
  {
    var text := Utf8.Decode(y).value;
    FirstCharacters(text);
    k := Blanks(y);
    BlanksSkipped(y);
    Utf8.FirstChar(y[k..]);
    assert y[k..][1..] == y[k + 1..];
    var z := y[k + 1..];
    BlanksSkipped(z);
    n := k + 1 + Blanks(z);
    assert z[Blanks(z)..] == y[n..];
    Utf8.FirstChar(y[n..]);
    assert y[n..][1..] == y[n + 1..];
    assert forall i | k < i < n :: y[i] == z[i - k - 1];
  }

  /** Octets that spell the rest of a quoted name, and a colon behind it. */
  ghost predicate IsNamed(y: Bytes) {
    match Utf8.Decode(y)
    case None => false
    case Some(t) =>
      ParseText(t).Some? && var colon := SkipSpace(ParseText(t).value.rest); colon != "" && colon[0] == ':'
  }

  lemma CommaIsNoName(t: string)
    requires t != "" && t[0] == ',' && (|t| > 1 ==> t[1] == '\"') && (|t| > 2 ==> 'a' <= t[2] <= 'z')
    ensures ParseText(t).Some? ==> var rest := ParseText(t).value.rest; rest == "" || 'a' <= rest[0] <= 'z'
  {
    if |t| > 1 {
      assert t[1..][1..] == t[2..];
      assert ParseText(t[1..]) == Some(Parsed("", t[2..]));
    } else {
      assert t[1..] == "";
    }
  }

  lemma BraceIsNoName(t: string)
    requires t == "}"
    ensures ParseText(t).None?
  {
    assert t[1..] == "";
  }

  /** The octets behind a value: a comma, a quote and a letter, or the closing brace. They spell no name. */
  lemma BehindValueIsNoName(y: Bytes)
    requires |y| > 0 ==> y[0] == 44 || (|y| == 1 && y[0] == 125)
    requires |y| > 1 ==> y[1] == 34
    requires |y| > 2 ==> 97 <= y[2] <= 122
    ensures !IsNamed(y)
  {
    if y != [] && Utf8.Decode(y).Some? {
      var t := Utf8.Decode(y).value;
      FirstThree(y);
      if y[0] == 44 {
        CommaIsNoName(t);
      } else {
        BraceIsNoName(t);
      }
    }
  }

  /** As long as they are seven-bit, the first octets are the first characters. */
  lemma FirstThree(y: Bytes)
    requires y != [] && Utf8.Decode(y).Some? && y[0] < 128
    requires (|y| > 1 ==> y[1] < 128) && (|y| > 2 ==> y[2] < 128)
    ensures var t := Utf8.Decode(y).value;
            && t != "" && t[0] as int == y[0]
            && (|t| > 1 ==> |y| > 1 && t[1] as int == y[1]) && (|t| > 2 ==> |y| > 2 && t[2] as int == y[2])
            && (|y| == 1 ==> |t| == 1)
  {
    Utf8.FirstChar(y);
    if |y| > 1 {
      Utf8.FirstChar(y[1..]);
      assert y[1..][1..] == y[2..];
      if |y| > 2 {
        Utf8.FirstChar(y[2..]);
      }
    }
  }

  /** Octets of the text from b on. */
  ghost predicate IsStretch(d: Bytes, b: nat, y: Bytes) {
    b + |y| <= |d| && forall n | 0 <= n < |y| :: y[n] == d[b + n]
  }

  lemma BlanksEnd(d: Bytes, b: nat, y: Bytes, k: nat, n: nat, end: nat)
    requires IsStretch(d, b, y) && k < n < |y| && b + k < end < |d| && d[end] == 34
    requires forall i | k < i < n :: y[i] in {32, 10, 13, 9}
    ensures b + n <= end
  {
    forall e | b + k < e < b + n
      ensures d[e] != 34
    {
      assert y[e - b] == d[e];
    }
  }

  lemma NoQuoteInside(body: Bytes, y: Bytes, n: nat, o: nat)
    requires IsBody(body) && 0 < n < |y| && 0 < o < |body| && y[n] == body[o] && y[n - 1] == body[o - 1]
    requires y[n - 1] in {123, 32, 10, 13, 9}
    ensures y[n] != 34
  {
  }

  /** An object cannot open inside a value: what would be its first name ends with the value. */
  lemma StretchFieldFails(d: Bytes, start: nat, body: Bytes, next: Bytes, b: nat, y: Bytes, k: nat, n: nat)
    requires IsStretch(d, b, y) && IsField(d, start, body, next)
    requires k < n < |y| && start <= b + k < start + |body|
    requires y[k] == 123 && forall i | k < i < n :: y[i] in {32, 10, 13, 9}
    ensures y[n] == 34 ==> !IsNamed(y[n + 1..])
  {
    var end := start + |body|;
    assert d[end] == next[0] == 34;
    BlanksEnd(d, b, y, k, n, end);
    if b + n < end {
      assert y[n] == d[b + n] == body[b + n - start];
      assert y[n - 1] == d[b + n - 1] == body[b + n - 1 - start];
      NoQuoteInside(body, y, n, b + n - start);
    } else {
      BehindField(d, end, next, b + n, y[n + 1..]);
    }
  }

  lemma BehindField(d: Bytes, end: nat, next: Bytes, b: nat, z: Bytes)
    requires b == end && Holds(d, end, next) && IsStretch(d, b + 1, z)
    requires Separates(next) || (next == [34, 125] && |d| == end + 2)
    ensures !IsNamed(z)
  {
    assert forall i | 0 <= i < |z| && i + 1 < |next| :: z[i] == next[i + 1];
    BehindValueIsNoName(z);
  }

  /** Only the empty licence has no values. */
  ghost predicate Fits(pieces: seq<Bytes>, lic: CustomServer) {
    lic == CustomServer("", "", "", "") ==> forall x | 0 <= x < |pieces| && x % 2 == 1 :: |pieces[x]| == 0
  }

  /** Behind the first octet an opening brace stands in a value only. */
  lemma BraceInValue(pieces: seq<Bytes>, b: nat) returns (x: nat, start: nat)
    requires IsLayout(pieces) && 0 < b < |Flat(pieces)| && Flat(pieces)[b] == 123
    ensures x < 8 && x % 2 == 1 && start <= b < start + |pieces[x]|
    ensures IsField(Flat(pieces), start, pieces[x], pieces[x + 1])
  {
    x, start := Locate(pieces, b);
  }

  /** Octets from inside the text are no licence, or the empty one. */
  lemma OpenedInValue(d: Bytes, start: nat, body: Bytes, next: Bytes, b: nat, y: Bytes, k: nat, n: nat)
    requires IsStretch(d, b, y) && IsField(d, start, body, next)
    requires k < n < |y| && start <= b + k < start + |body|
    requires y[k] == 123 && forall i | k < i < n :: y[i] in {32, 10, 13, 9}
    requires y[n] == 125 || (y[n] == 34 && IsNamed(y[n + 1..]))
    ensures y[n] == 125
  {
    StretchFieldFails(d, start, body, next, b, y, k, n);
  }

  lemma StretchFails(pieces: seq<Bytes>, b: nat, y: Bytes, lic: CustomServer)
    requires IsLayout(pieces) && Fits(pieces, lic) && b > 0 && IsStretch(Flat(pieces), b, y)
    ensures FromSlice(y) != Some(lic)
  {
    if FromSlice(y).Some? {
      var k, n := SliceOpens(y);
      assert y[k] == Flat(pieces)[b + k];
      var x, start := BraceInValue(pieces, b + k);
      OpenedInValue(Flat(pieces), start, pieces[x], pieces[x + 1], b, y, k, n);
      assert |pieces[x]| > 0;
    }
  }

  // ---- no part of the name ----

  lemma FitsOf(lic: CustomServer)
    ensures Fits(Pieces(lic), lic)
  {
    if lic == CustomServer("", "", "", "") {
      assert Body("") == [];
      FitsOfParts(Pieces(lic), lic);
    }
  }

  lemma FitsOfParts(p: seq<Bytes>, lic: CustomServer)
    requires |p| == 9 && |p[1]| == |p[3]| == |p[5]| == |p[7]| == 0
    ensures Fits(p, lic)
  {
  }

  /** From the first octet on, a text of a licence is the whole printed text. */
  lemma PrefixIsWhole(lic: CustomServer, data: Bytes, y: Bytes)
    requires data == Utf8.Encode(Print(lic)) && y <= data && FromSlice(y).Some?
    ensures y == data
  {
    assert y == data[..|y|];
    Utf8.PrefixText(Print(lic), |y|);
    NoTextGoesOn(Utf8.Decode(y).value, lic);
    DecodedSize(y);
  }

  lemma SeenFrom(d: Bytes, q: nat, r: nat, y: Bytes)
    requires 3 * q <= |d| && r < 4 && Seen(d[3 * q..], r, y)
    ensures if r == 0 then IsStretch(d, 3 * q, y) else MixedFrom(d, 3 * q + r - 1, r, y)
  {
    forall k: nat
      ensures At(d[3 * q..], k) == At(d, 3 * q + k)
    {
    }
  }

  lemma WindowFails(pieces: seq<Bytes>, d: Bytes, q: nat, r: nat, y: Bytes, lic: CustomServer, least: nat)
    requires d == Flat(pieces) && IsLayout(pieces) && Needs(pieces, least) && Fits(pieces, lic)
    requires r < 4 && q + r > 0 && 3 * q <= |d| && Enough(y, lic, least)
    requires if r == 0 then IsStretch(d, 3 * q, y) else MixedFrom(d, 3 * q + r - 1, r, y)
    ensures FromSlice(y) != Some(lic)
  {
    if r > 0 {
      MixedFails(pieces, 3 * q + r - 1, r, y, lic, least);
    } else {
      StretchFails(pieces, 3 * q, y, lic);
    }
  }

  lemma FewerSextets(data: Bytes, zs: seq<Base64Url.Sextet>, y: Bytes)
    requires Base64Url.ToOctets(zs) == Some(y) && |zs| < |Base64Url.ToSextets(data)|
    ensures y != data
  {
    Base64Url.SextetsOfOctets(zs);
  }

  lemma PrefixFails(lic: CustomServer, data: Bytes, y: Bytes)
    requires data == Utf8.Encode(Print(lic)) && y <= data && y != data
    ensures FromSlice(y).None?
  {
    if FromSlice(y).Some? {
      PrefixIsWhole(lic, data, y);
    }
  }

  /** A layout of the text's octets, and a bound for these octets to which every value adds. */
  ghost predicate Bounds(data: Bytes, lic: CustomServer, y: Bytes, z: Bytes, pieces: seq<Bytes>, least: nat) {
    && Flat(pieces) == data && IsLayout(pieces) && Fits(pieces, lic) && Needs(pieces, least)
    && Enough(y, lic, least) && Enough(z, lic, least) && |data| < least + 64
  }

  lemma Lay(lic: CustomServer) returns (pieces: seq<Bytes>)
    ensures Flat(pieces) == Utf8.Encode(Print(lic)) && IsLayout(pieces) && Fits(pieces, lic) && |pieces| == 9
    ensures pieces[1] == Body(lic.key) && pieces[3] == Body(lic.host) && pieces[5] == Body(lic.api)
    ensures pieces[7] == Body(lic.relay)
  {
    pieces := Pieces(lic);
    TextPieces(lic);
    LayoutOf(lic);
    FitsOf(lic);
  }

  lemma BoundsOf(lic: CustomServer, y: Bytes, z: Bytes) returns (pieces: seq<Bytes>, least: nat)
    ensures Bounds(Utf8.Encode(Print(lic)), lic, y, z, pieces, least)
  {
    pieces := Lay(lic);
    least := Bound(lic, y, z);
    NeedsFrom(pieces, lic, least);
  }

  /** A proper stretch of the sextets, from sextet j on. */
  ghost predicate IsStretchOf(xs: seq<Base64Url.Sextet>, j: nat, zs: seq<Base64Url.Sextet>) {
    j + |zs| <= |xs| && zs == xs[j..j + |zs|] && |zs| < |xs|
  }

  /** Octets that a stretch of the text's sextets gives are not the licence, unless the stretch is all of them. */
  lemma SextetsFail(lic: CustomServer, data: Bytes, q: nat, r: nat, zs: seq<Base64Url.Sextet>, y: Bytes, z: Bytes,
                    pieces: seq<Bytes>, least: nat)
    requires data == Utf8.Encode(Print(lic)) && Base64Url.ToOctets(zs) == Some(y)
    requires r < 4 && IsStretchOf(Base64Url.ToSextets(data), 4 * q + r, zs)
    requires Bounds(data, lic, y, z, pieces, least)
    ensures FromSlice(y) != Some(lic)
  {
    Window(data, q, r, zs);
    SeenFrom(data, q, r, y);
    if q + r > 0 {
      WindowFails(pieces, data, q, r, y, lic, least);
    } else {
      assert data[0..] == data;
      FewerSextets(data, zs, y);
      PrefixFails(lic, data, y);
    }
  }

  lemma PartOfReversed(code: string, part: string, i: nat) returns (j: nat)
    requires MatchAt(Reverse(code), i, part)
    ensures j + |part| <= |code| && Reverse(part) == code[j..j + |part|]
  {
    j := |code| - i - |part|;
    forall k | 0 <= k < |part|
      ensures Reverse(part)[k] == code[j + k]
    {
      assert part[|part| - 1 - k] == Reverse(code)[i..i + |part|][|part| - 1 - k];
    }
  }

  lemma ValuesOfStretch(code: string, xs: seq<Base64Url.Sextet>, j: nat, n: nat)
    requires Base64Url.AllSymbols(code) && Base64Url.Values(code) == xs && j + n <= |code|
    ensures Base64Url.AllSymbols(code[j..j + n]) && Base64Url.Values(code[j..j + n]) == xs[j..j + n]
  {
  }

  /** The code of a part, read from its end, is a stretch of the sextets. */
  lemma CodeOfPart(xs: seq<Base64Url.Sextet>, part: string, i: nat) returns (j: nat)
    requires MatchAt(Reverse(Base64Url.Symbols(xs)), i, part)
    ensures j + |part| <= |xs| && Base64Url.AllSymbols(Reverse(part))
    ensures Base64Url.Values(Reverse(part)) == xs[j..j + |part|]
  {
    var code := Base64Url.Symbols(xs);
    Base64Url.ValuesOfSymbols(xs);
    j := PartOfReversed(code, part, i);
    ValuesOfStretch(code, xs, j, |part|);
  }

  function Payload(verify: Verify, y: Bytes): Bytes {
    if verify(y).Some? then verify(y).value else []
  }

  /** A signed message would be longer than the whole text. */
  lemma SignedFails(verify: Verify, lic: CustomServer, y: Bytes, least: nat)
    requires IsSigned(verify) && |y| < least + 64
    requires Enough(Payload(verify, y), lic, least)
    ensures FromSigned(verify, y) != Some(lic)
  {
  }

  lemma PartIsShort(data: Bytes, zs: seq<Base64Url.Sextet>)
    requires |zs| < |Base64Url.ToSextets(data)| && Base64Url.ToOctets(zs).Some?
    ensures |Base64Url.ToOctets(zs).value| <= |data|
  {
    OctetCount(zs);
    SextetCount(data);
  }

  lemma InGroups(j: nat) returns (q: nat, r: nat)
    ensures j == 4 * q + r && r < 4
  {
    q, r := j / 4, j % 4;
  }

  lemma SignedLater(verify: Verify, lic: CustomServer, data: Bytes, zs: seq<Base64Url.Sextet>, y: Bytes, least: nat)
    requires IsSigned(verify) && |data| < least + 64 && Base64Url.ToOctets(zs) == Some(y)
    requires |zs| < |Base64Url.ToSextets(data)|
    requires Enough(Payload(verify, y), lic, least)
    ensures FromSigned(verify, y) != Some(lic)
  {
    PartIsShort(data, zs);
    SignedFails(verify, lic, y, least);
  }

  /** Neither the octets of a proper stretch nor what a signature makes of them is the licence. */
  lemma StretchOfCodeFails(verify: Verify, lic: CustomServer, data: Bytes, zs: seq<Base64Url.Sextet>, j: nat, y: Bytes)
    requires IsSigned(verify) && data == Utf8.Encode(Print(lic)) && Base64Url.ToOctets(zs) == Some(y)
    requires IsStretchOf(Base64Url.ToSextets(data), j, zs)
    ensures FromSlice(y) != Some(lic) && FromSigned(verify, y) != Some(lic)
  {
    var z := Payload(verify, y);
    var pieces, least := BoundsOf(lic, y, z);
    SignedLater(verify, lic, data, zs, y, least);
    var q, r := InGroups(j);
    SextetsFail(lic, data, q, r, zs, y, z, pieces, least);
  }

  lemma FromCode(verify: Verify, part: string, zs: seq<Base64Url.Sextet>, lic: CustomServer)
    requires Base64Url.AllSymbols(Reverse(part)) && Base64Url.Values(Reverse(part)) == zs
    requires var y := Base64Url.ToOctets(zs);
             y.Some? ==> FromSlice(y.value) != Some(lic) && FromSigned(verify, y.value) != Some(lic)
    ensures FromConfigString(verify, part) != Some(lic)
  {
  }

  lemma CodeFails(verify: Verify, lic: CustomServer, data: Bytes, part: string, i: nat)
    requires IsSigned(verify) && data == Utf8.Encode(Print(lic)) && MatchAt(Reverse(Base64Url.Encode(data)), i, part)
    requires |part| < |Base64Url.Encode(data)|
    ensures FromConfigString(verify, part) != Some(lic)
  {
    var j := CodeOfPart(Base64Url.ToSextets(data), part, i);
    var zs := Base64Url.Values(Reverse(part));
    if Base64Url.ToOctets(zs).Some? {
      StretchOfCodeFails(verify, lic, data, zs, j, Base64Url.ToOctets(zs).value);
    }
    FromCode(verify, part, zs, lic);
  }

  /** A part of a licence's name that is not the whole of it never gives that licence, signed or not. */
  lemma NoProperPart(verify: Verify, lic: CustomServer, part: string)
    requires IsSigned(verify) && Contains(GenName(lic), part) && |part| < |GenName(lic)|
    ensures FromConfigString(verify, part) != Some(lic)
  {
    var i: nat :| i <= |GenName(lic)| && MatchAt(GenName(lic), i, part);
    CodeFails(verify, lic, Utf8.Encode(Print(lic)), part, i);
  }
}
