/** Licence names: the printer (src/naming.rs) and the parser of executable names (src/custom_server.rs). */
module CustomServers {
  import opened Wrappers
  import opened LicenceJson
  import opened LowerCase
  import opened Text
  import Base64Url
  import Utf8

  /** Signature check: the payload of a correctly signed message. */
  type Verify = Bytes -> Option<Bytes>

  /** A signature alone takes 64 octets, so nothing shorter can pass. */
  ghost predicate NeedsSignature(verify: Verify) {
    forall data: Bytes | |data| < 64 :: verify(data) == None
  }

  /** What passes is a signature of 64 octets and the payload. */
  ghost predicate IsSigned(verify: Verify) {
    forall data: Bytes | verify(data).Some? :: |data| == |verify(data).value| + 64
  }

  /** Octets as a name: their base64url text from its end. */
  function CodeName(data: Bytes): string {
    Reverse(Base64Url.Encode(data))
  }

  function GenName(lic: CustomServer): string {
    CodeName(Utf8.Encode(Print(lic)))
  }

  function FromSlice(data: Bytes): Option<CustomServer> {
    match Utf8.Decode(data)
    case None => None
    case Some(text) => Parse(text)
  }

  /** The licence in a signed message. */
  function FromSigned(verify: Verify, data: Bytes): Option<CustomServer> {
    match verify(data)
    case None => None
    case Some(payload) => FromSlice(payload)
  }

  function FromConfigString(verify: Verify, s: string): Option<CustomServer> {
    match Base64Url.Decode(Reverse(s))
    case None => None
    case Some(data) =>
      var plain := FromSlice(data);
      if plain.Some? then plain else FromSigned(verify, data)
  }

  // ---- what a file name means ----

  /** One extension goes in any letter case, or two; the slice counts octets. */
  function Stripped(fold: Folding, s: string): Option<string> {
    if EndsWith(Lowered(fold, s), ".exe.exe") then WithoutLast(s, 8)
    else if EndsWith(Lowered(fold, s), ".exe") then WithoutLast(s, 4)
    else Some(s)
  }

  predicate HasTag(fold: Folding, item: string, tag: string) {
    tag <= Lowered(fold, item)
  }

  /** Without the first n characters. */
  function Skip(s: string, n: nat): string {
    if n <= |s| then s[n..] else ""
  }

  /** The value of the last item that carries the tag. */
  function LastValue(fold: Folding, items: seq<string>, tag: string): string {
    if items == [] then ""
    else if HasTag(fold, items[|items| - 1], tag) then Skip(items[|items| - 1], |tag|)
    else LastValue(fold, items[..|items| - 1], tag)
  }

  function FromItems(fold: Folding, items: seq<string>): CustomServer {
    CustomServer(LastValue(fold, items, "key="), LastValue(fold, items, "host="),
                 LastValue(fold, items, "api="), LastValue(fold, items, "relay="))
  }

  const LICENSED := "-licensed-"

  function Normalise(s: string): string {
    Replace(Replace(Replace(s, "-licensed---", "--"), "-licensed--", "--"), LICENSED, "--")
  }

  /** The first piece that holds a licence once trimmed. */
  function FromPieces(verify: Verify, pieces: seq<string>): Option<CustomServer> {
    if pieces == [] then None
    else
      var lic := FromConfigString(verify, Trim(pieces[0]));
      if lic.Some? then lic else FromPieces(verify, pieces[1..])
  }

  /** A segment that holds no licence is tried again in the pieces around its parentheses. */
  function FromSegment(verify: Verify, segment: string): Option<CustomServer> {
    var lic := FromConfigString(verify, Trim(segment));
    if lic.Some? then lic
    else if '(' in segment then FromPieces(verify, Split(segment, "("))
    else None
  }

  function FromSegments(verify: Verify, segments: seq<string>): Option<CustomServer> {
    if segments == [] then None
    else
      var lic := FromSegment(verify, segments[0]);
      if lic.Some? then lic else FromSegments(verify, segments[1..])
  }

  /** Neither the segment nor, if it holds a parenthesis, any piece of it is a licence's name. */
  ghost predicate HoldsNone(verify: Verify, segment: string) {
    && FromConfigString(verify, Trim(segment)) == None
    && ('(' in segment ==> forall piece | piece in Split(segment, "(") :: FromConfigString(verify, Trim(piece)) == None)
  }

  lemma FirstAndRest(s: seq<string>)
    requires s != []
    ensures s == [s[0]] + s[1..]
    ensures forall i: nat | 0 < i < |s| :: s[1..][i - 1] == s[i] && s[..i] == [s[0]] + s[1..][..i - 1]
  {
  }

  lemma {:induction false} FirstPieceDecides(verify: Verify, pieces: seq<string>)
    ensures FromPieces(verify, pieces) == None <==>
            forall piece | piece in pieces :: FromConfigString(verify, Trim(piece)) == None
    ensures forall i: nat | i < |pieces| && FromConfigString(verify, Trim(pieces[i])).Some? ::
              (forall piece | piece in pieces[..i] :: FromConfigString(verify, Trim(piece)) == None) ==>
              FromPieces(verify, pieces) == FromConfigString(verify, Trim(pieces[i]))
  {
    if pieces != [] {
      FirstPieceDecides(verify, pieces[1..]);
      FirstAndRest(pieces);
    }
  }

  /** A segment gives its own licence or that of its first piece that is one's name, wherever it stands. */
  lemma SegmentDecides(verify: Verify, segment: string)
    ensures FromSegment(verify, segment) == None <==> HoldsNone(verify, segment)
    ensures FromConfigString(verify, Trim(segment)).Some? ==>
              FromSegment(verify, segment) == FromConfigString(verify, Trim(segment))
    ensures var pieces := Split(segment, "(");
            forall i: nat | i < |pieces| && FromConfigString(verify, Trim(pieces[i])).Some? ::
              && '(' in segment && FromConfigString(verify, Trim(segment)) == None
              && (forall piece | piece in pieces[..i] :: FromConfigString(verify, Trim(piece)) == None) ==>
              FromSegment(verify, segment) == FromConfigString(verify, Trim(pieces[i]))
  {
    FirstPieceDecides(verify, Split(segment, "("));
  }

  /** The first segment that holds a licence decides, wherever it stands; there is none only if no segment does. */
  lemma {:induction false} FirstSegmentDecides(verify: Verify, segments: seq<string>)
    ensures FromSegments(verify, segments) == None <==> forall s | s in segments :: HoldsNone(verify, s)
    ensures forall i: nat | i < |segments| && !HoldsNone(verify, segments[i]) ::
              (forall s | s in segments[..i] :: HoldsNone(verify, s)) ==>
              FromSegments(verify, segments) == FromSegment(verify, segments[i])
  {
    if segments != [] {
      FirstSegmentDecides(verify, segments[1..]);
      SegmentDecides(verify, segments[0]);
      FirstAndRest(segments);
    }
  }

  /** What the parser returns, unless it slices a text inside a character or beyond its end. */
  datatype Outcome = Panicked | Returned(lic: Option<CustomServer>)

  /** The list starts at the octet offset that its first tag has in the lower-case text. */
  function ListOf(fold: Folding, s: string): Option<string> {
    var lower := Lowered(fold, s);
    From(s, Octets(lower[..Find(lower, "host=")]))
  }

  function FromStripped(verify: Verify, fold: Folding, s: string): Outcome {
    if Contains(Lowered(fold, s), "host=") then
      match ListOf(fold, s)
      case None => Panicked
      case Some(list) => Returned(Some(FromItems(fold, Split(list, ","))))
    else Returned(FromSegments(verify, Split(Normalise(s), "--")))
  }

  function FromString(verify: Verify, fold: Folding, s: string): Outcome {
    match Stripped(fold, s)
    case None => Panicked
    case Some(t) => FromStripped(verify, fold, t)
  }

  // ---- the parser itself ----

  method GetCustomServerFromString(verify: Verify, fold: Folding, name: string) returns (r: Outcome)
    ensures r == FromString(verify, fold, name)
  {
    var slice := if EndsWith(Lowered(fold, name), ".exe.exe") then WithoutLast(name, 8)
                 else if EndsWith(Lowered(fold, name), ".exe") then WithoutLast(name, 4)
                 else Some(name);
    if slice.None? {
      return Panicked;
    }
    var s := slice.value;
    var lower := Lowered(fold, s);
    if Contains(lower, "host=") {
      var list := From(s, Octets(lower[..Find(lower, "host=")]));
      if list.None? {
        return Panicked;
      }
      var lic := ParseCommaList(fold, list.value);
      return Returned(Some(lic));
    }
    s := Replace(s, "-licensed---", "--");
    s := Replace(s, "-licensed--", "--");
    s := Replace(s, LICENSED, "--");
    var found := SearchSegments(verify, Split(s, "--"));
    r := Returned(found);
  }

  method SearchSegments(verify: Verify, segments: seq<string>) returns (r: Option<CustomServer>)
    ensures r == FromSegments(verify, segments)
    ensures r == None <==> forall s | s in segments :: HoldsNone(verify, s)
    ensures forall i: nat | i < |segments| && !HoldsNone(verify, segments[i]) ::
              (forall s | s in segments[..i] :: HoldsNone(verify, s)) ==> r == FromSegment(verify, segments[i])
  {
    FirstSegmentDecides(verify, segments);
    for i := 0 to |segments|
      invariant FromSegments(verify, segments) == FromSegments(verify, segments[i..])
    {
      var lic := FromConfigString(verify, Trim(segments[i]));
      if lic.Some? {
        return lic;
      } else if '(' in segments[i] {
        var pieces := Split(segments[i], "(");
        for j := 0 to |pieces|
          invariant FromPieces(verify, pieces) == FromPieces(verify, pieces[j..])
        {
          lic := FromConfigString(verify, Trim(pieces[j]));
          if lic.Some? {
            return lic;
          }
        }
      }
    }
    return None;
  }

  method ParseCommaList(fold: Folding, stripped: string) returns (lic: CustomServer)
    ensures lic == FromItems(fold, Split(stripped, ","))
  {
    var items := Split(stripped, ",");
    var host, key, api, relay := "", "", "", "";
    for i := 0 to |items|
      invariant CustomServer(key, host, api, relay) == FromItems(fold, items[..i])
    {
      assert items[..i + 1][..i] == items[..i];
      var item := items[i];
      var lower := Lowered(fold, item);
      if "host=" <= lower {
        host := Skip(item, 5);
      }
      if "key=" <= lower {
        key := Skip(item, 4);
      }
      if "api=" <= lower {
        api := Skip(item, 4);
      }
      if "relay=" <= lower {
        relay := Skip(item, 6);
      }
    }
    assert items[..|items|] == items;
    lic := CustomServer(key, host, api, relay);
  }

  // ---- the same without counting octets ----

  function StripExe(s: string): string {
    if EndsWith(Lower(s), ".exe.exe") then s[..|s| - 8]
    else if EndsWith(Lower(s), ".exe") then s[..|s| - 4]
    else s
  }

  ghost predicate IsExtension(p: string) {
    forall i | 0 <= i < |p| :: p[i] as int < 128 && p[i] != 'k'
  }

  lemma Extensions()
    ensures IsExtension(".exe") && IsExtension(".exe.exe")
  {
  }

  lemma AsciiTail(s: string, tail: string, p: string)
    requires Lower(tail) == p && IsExtension(p)
    ensures WithoutLast(s + tail, |p|) == Some(s)
  {
    forall i | 0 <= i < |tail|
      ensures tail[i] as int < 128
    {
      assert LowerChar(tail[i]) == p[i];
    }
    OctetsOfAscii(tail);
    WithoutBehind(s, tail);
  }

  lemma CutExtension(s: string, p: string)
    requires EndsWith(Lower(s), p) && IsExtension(p)
    ensures |p| <= |s| && WithoutLast(s, |p|) == Some(s[..|s| - |p|])
  {
    var n := |s| - |p|;
    assert Lower(s[n..]) == Lower(s)[n..];
    AsciiTail(s[..n], s[n..], p);
    assert s[..n] + s[n..] == s;
  }

  lemma StrippedBy(fold: Folding, s: string, p: string, n: nat)
    requires IsExtension(p) && |p| == n
    ensures EndsWith(Lowered(fold, s), p) <==> EndsWith(Lower(s), p)
    ensures EndsWith(Lower(s), p) ==> n <= |s| && WithoutLast(s, n) == Some(s[..|s| - n])
  {
    SameEnd(fold, s, p);
    if EndsWith(Lower(s), p) {
      CutExtension(s, p);
    }
  }

  /** The extensions are ASCII characters of the text itself, so the slice never fails. */
  lemma StrippedIs(fold: Folding, s: string)
    ensures Stripped(fold, s) == Some(StripExe(s))
  {
    Extensions();
    StrippedBy(fold, s, ".exe.exe", 8);
    StrippedBy(fold, s, ".exe", 4);
  }

  /** A tag is carried by the same items, whichever lower case is taken. */
  lemma TagIs(fold: Folding, item: string, tag: string)
    requires IsPattern(tag)
    ensures HasTag(fold, item, tag) <==> tag <= Lower(item)
    ensures HasTag(fold, item, tag) ==> |tag| <= |item|
  {
    SameStart(fold, item, tag);
  }

  /** A name without a tag is searched for segments; nothing is sliced. */
  lemma WithoutTag(verify: Verify, fold: Folding, s: string)
    requires !Contains(Lower(s), "host=")
    ensures FromStripped(verify, fold, s) == Returned(FromSegments(verify, Split(Normalise(s), "--")))
  {
    HostPattern("host=");
    SameContains(fold, s, "host=");
  }

  lemma HostPattern(tag: string)
    requires tag == "host="
    ensures IsPattern(tag) && tag[0] != 'i'
  {
  }

  // ---- the encoded name alone ----

  /** For every four Unicode strings: quoting, UTF-8, base64url and reversal are all undone. */
  lemma ConfigStringRoundTrip(verify: Verify, lic: CustomServer)
    ensures FromConfigString(verify, GenName(lic)) == Some(lic)
  {
    var data := Utf8.Encode(Print(lic));
    ReverseTwice(Base64Url.Encode(data));
    Base64Url.DecodeEncode(data);
    Utf8.DecodeEncode(Print(lic));
    ParsePrint(lic);
  }

  /** The octets are a JSON text of the licence, however it is spelled. */
  ghost predicate IsTextOf(data: Bytes, lic: CustomServer) {
    exists text: string :: data == Utf8.Encode(text) && Parse(text) == Some(lic)
  }

  lemma SliceIsText(data: Bytes, lic: CustomServer)
    ensures FromSlice(data) == Some(lic) <==> IsTextOf(data, lic)
  {
    if FromSlice(data) == Some(lic) {
      Utf8.DecodesExactly(data, Utf8.Decode(data).value);
    }
    if text: string :| data == Utf8.Encode(text) && Parse(text) == Some(lic) {
      Utf8.DecodeEncode(text);
    }
  }

  lemma PrintedIsText(lic: CustomServer)
    ensures IsTextOf(Utf8.Encode(Print(lic)), lic)
  {
    ParsePrint(lic);
  }

  /**
    * What every name means: the licence whose text its octets are; when they are no licence's text, the one whose
    * text a signature vouches for; and nothing else.
    */
  lemma ConfigStringExactly(verify: Verify, name: string, lic: CustomServer)
    ensures FromConfigString(verify, name) == Some(lic) <==>
            exists data: Bytes :: name == CodeName(data)
              && (|| IsTextOf(data, lic)
                  || (&& (forall other :: !IsTextOf(data, other))
                      && verify(data).Some? && IsTextOf(verify(data).value, lic)))
  {
    forall data: Bytes | name == CodeName(data)
      ensures Base64Url.Decode(Reverse(name)) == Some(data)
    {
      ReverseTwice(Base64Url.Encode(data));
      Base64Url.DecodeEncode(data);
    }
    if Base64Url.Decode(Reverse(name)).Some? {
      var data := Base64Url.Decode(Reverse(name)).value;
      Base64Url.DecodesExactly(Reverse(name), data);
      ReverseTwice(name);
      assert name == CodeName(data);
      forall other: CustomServer
        ensures FromSlice(data) == Some(other) <==> IsTextOf(data, other)
      {
        SliceIsText(data, other);
      }
      if verify(data).Some? {
        SliceIsText(verify(data).value, lic);
      }
    }
  }

  /** A licence with a signature that holds is read back from the name of both together. */
  lemma SignedRoundTrip(verify: Verify, data: Bytes, lic: CustomServer)
    requires verify(data) == Some(Utf8.Encode(Print(lic))) && forall other :: !IsTextOf(data, other)
    ensures FromConfigString(verify, CodeName(data)) == Some(lic)
  {
    PrintedIsText(lic);
    ConfigStringExactly(verify, CodeName(data), lic);
  }

  /** A plain licence wins over whatever a signature makes of its octets. */
  lemma PlainWins(verify: Verify, data: Bytes, lic: CustomServer)
    requires IsTextOf(data, lic)
    ensures FromConfigString(verify, CodeName(data)) == Some(lic)
  {
    ConfigStringExactly(verify, CodeName(data), lic);
  }

  /** Two licences never share a name. */
  lemma GenNameInjective(a: CustomServer, b: CustomServer)
    requires GenName(a) == GenName(b)
    ensures a == b
  {
    var nothing: Verify := (data: Bytes) => None;
    ConfigStringRoundTrip(nothing, a);
    ConfigStringRoundTrip(nothing, b);
  }
}
