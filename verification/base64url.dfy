/**
  * The base64 alphabet of section 5 of RFC 4648, without padding (section 3.2) and with the canonical
  * trailing bits of section 3.5. Shifts and masks of the octets are written as division and remainder.
  */
module Base64Url {
  import opened Wrappers

  type Sextet = x: int | 0 <= x < 64

  // ---- symbols ----

  function Symbol(x: Sextet): char {
    if x < 26 then (65 + x) as char
    else if x < 52 then (71 + x) as char
    else if x < 62 then (x - 4) as char
    else if x == 62 then '-'
    else '_'
  }

  predicate IsSymbol(c: char) {
    'A' <= c <= 'Z' || 'a' <= c <= 'z' || '0' <= c <= '9' || c == '-' || c == '_'
  }

  function Value(c: char): Sextet
    requires IsSymbol(c)
  {
    if 'A' <= c <= 'Z' then c as int - 65
    else if 'a' <= c <= 'z' then c as int - 71
    else if '0' <= c <= '9' then c as int + 4
    else if c == '-' then 62
    else 63
  }

  function Symbols(xs: seq<Sextet>): (s: string)
    ensures |s| == |xs|
  {
    seq(|xs|, i requires 0 <= i < |xs| => Symbol(xs[i]))
  }

  predicate AllSymbols(s: string) {
    forall i | 0 <= i < |s| :: IsSymbol(s[i])
  }

  function Values(s: string): (xs: seq<Sextet>)
    requires AllSymbols(s)
    ensures |xs| == |s|
  {
    seq(|s|, i requires 0 <= i < |s| => Value(s[i]))
  }

  lemma SymbolValue(x: Sextet)
    ensures IsSymbol(Symbol(x)) && Value(Symbol(x)) == x
  {
    if x >= 62 {
      assert x == 62 || x == 63;
    }
  }

  lemma ValuesOfSymbols(xs: seq<Sextet>)
    ensures AllSymbols(Symbols(xs)) && Values(Symbols(xs)) == xs
  {
    forall i | 0 <= i < |xs|
      ensures IsSymbol(Symbols(xs)[i]) && Value(Symbols(xs)[i]) == xs[i]
    {
      SymbolValue(xs[i]);
    }
  }

  lemma SymbolsOfValues(s: string)
    requires AllSymbols(s)
    ensures Symbols(Values(s)) == s
  {
  }

  lemma DashIs62(x: Sextet)
    ensures Symbol(x) == '-' <==> x == 62
  {
  }

  // ---- regrouping of bits ----

  // The four sextets that three octets fill.
  function Sextet0(a: Byte): Sextet { a / 4 }
  function Sextet1(a: Byte, b: Byte): Sextet { a % 4 * 16 + b / 16 }
  function Sextet2(b: Byte, c: Byte): Sextet { b % 16 * 4 + c / 64 }
  function Sextet3(c: Byte): Sextet { c % 64 }

  // The three octets that four sextets hold.
  function Octet0(w: Sextet, x: Sextet): Byte { w * 4 + x / 16 }
  function Octet1(x: Sextet, y: Sextet): Byte { x % 16 * 16 + y / 4 }
  function Octet2(y: Sextet, z: Sextet): Byte { y % 4 * 64 + z }

  function Split3(data: Bytes): (xs: seq<Sextet>)
    requires |data| >= 3
    ensures |xs| == 4
  {
    [Sextet0(data[0]), Sextet1(data[0], data[1]), Sextet2(data[1], data[2]), Sextet3(data[2])]
  }

  function Join4(xs: seq<Sextet>): (data: Bytes)
    requires |xs| >= 4
    ensures |data| == 3
  {
    [Octet0(xs[0], xs[1]), Octet1(xs[1], xs[2]), Octet2(xs[2], xs[3])]
  }

  function ToSextets(data: Bytes): seq<Sextet> {
    if |data| == 0 then []
    else if |data| == 1 then [Sextet0(data[0]), Sextet1(data[0], 0)]
    else if |data| == 2 then [Sextet0(data[0]), Sextet1(data[0], data[1]), Sextet2(data[1], 0)]
    else Split3(data) + ToSextets(data[3..])
  }

  function ToOctets(xs: seq<Sextet>): Option<Bytes> {
    if |xs| == 0 then Some([])
    else if |xs| == 1 then None
    else if |xs| == 2 then
      if xs[1] % 16 == 0 then Some([Octet0(xs[0], xs[1])]) else None
    else if |xs| == 3 then
      if xs[2] % 4 == 0 then Some([Octet0(xs[0], xs[1]), Octet1(xs[1], xs[2])]) else None
    else
      match ToOctets(xs[4..])
      case Some(rest) => Some(Join4(xs) + rest)
      case None => None
  }

  function Encode(data: Bytes): string {
    Symbols(ToSextets(data))
  }

  /** None stands for every decoding error: a foreign character, an impossible length, stray trailing bits. */
  function Decode(s: string): Option<Bytes> {
    if AllSymbols(s) then ToOctets(Values(s)) else None
  }

  // ---- the two directions ----

  lemma OctetBits(a: Byte, b: Byte, c: Byte)
    ensures Octet0(Sextet0(a), Sextet1(a, b)) == a
    ensures Octet1(Sextet1(a, b), Sextet2(b, c)) == b
    ensures Octet2(Sextet2(b, c), Sextet3(c)) == c
  {
  }

  lemma SextetBits(w: Sextet, x: Sextet, y: Sextet, z: Sextet)
    ensures Sextet0(Octet0(w, x)) == w
    ensures Sextet1(Octet0(w, x), Octet1(x, y)) == x
    ensures Sextet2(Octet1(x, y), Octet2(y, z)) == y
    ensures Sextet3(Octet2(y, z)) == z
  {
  }

  lemma PaddingBits(a: Byte)
    ensures Sextet1(a, 0) % 16 == 0 && Octet0(Sextet0(a), Sextet1(a, 0)) == a
    ensures Sextet2(a, 0) % 4 == 0
  {
  }

  lemma LowPart(high: nat, low: nat, d: nat)
    requires low < d && d in {4, 16}
    ensures (high * d + low) % d == low
  {
  }

  lemma TrailingBits(w: Sextet, x: Sextet)
    ensures x % 16 == 0 ==> Sextet1(Octet0(w, x), 0) == x
    ensures x % 4 == 0 ==> Sextet2(Octet1(w, x), 0) == x
  {
    LowPart(w, x / 16, 4);
    LowPart(w % 16, x / 4, 16);
  }

  lemma JoinSplit(data: Bytes)
    requires |data| >= 3
    ensures Join4(Split3(data)) == data[..3]
  {
    OctetBits(data[0], data[1], data[2]);
  }

  lemma SplitJoin(xs: seq<Sextet>)
    requires |xs| >= 4
    ensures Split3(Join4(xs)) == xs[..4]
  {
    SextetBits(xs[0], xs[1], xs[2], xs[3]);
  }

  lemma OctetsOfOne(data: Bytes)
    requires |data| == 1
    ensures ToOctets(ToSextets(data)) == Some(data)
  {
    PaddingBits(data[0]);
    assert data == [data[0]];
  }

  lemma OctetsOfTwo(data: Bytes)
    requires |data| == 2
    ensures ToOctets(ToSextets(data)) == Some(data)
  {
    PaddingBits(data[1]);
    OctetBits(data[0], data[1], 0);
    assert data == [data[0], data[1]];
  }

  lemma SextetsOfShort(xs: seq<Sextet>)
    requires |xs| < 4 && ToOctets(xs).Some?
    ensures ToSextets(ToOctets(xs).value) == xs
  {
    if |xs| == 2 {
      assert Sextet0(Octet0(xs[0], xs[1])) == xs[0];
      TrailingBits(xs[0], xs[1]);
    } else if |xs| == 3 {
      SextetBits(xs[0], xs[1], xs[2], 0);
      TrailingBits(xs[1], xs[2]);
    }
  }

  lemma {:induction false} OctetsOfSextets(data: Bytes)
    ensures ToOctets(ToSextets(data)) == Some(data)
  {
    if |data| == 1 {
      OctetsOfOne(data);
    } else if |data| == 2 {
      OctetsOfTwo(data);
    } else if |data| >= 3 {
      var xs := ToSextets(data);
      assert xs[4..] == ToSextets(data[3..]);
      assert Join4(xs) == Join4(Split3(data));
      JoinSplit(data);
      OctetsOfSextets(data[3..]);
      assert data == data[..3] + data[3..];
    }
  }

  lemma {:induction false} SextetsOfOctets(xs: seq<Sextet>)
    requires ToOctets(xs).Some?
    ensures ToSextets(ToOctets(xs).value) == xs
  {
    if |xs| < 4 {
      SextetsOfShort(xs);
    } else {
      var data := ToOctets(xs).value;
      assert data[3..] == ToOctets(xs[4..]).value;
      assert Split3(data) == Split3(Join4(xs));
      SplitJoin(xs);
      SextetsOfOctets(xs[4..]);
      assert xs == xs[..4] + xs[4..];
    }
  }

  lemma DecodeEncode(data: Bytes)
    ensures Decode(Encode(data)) == Some(data)
  {
    ValuesOfSymbols(ToSextets(data));
    OctetsOfSextets(data);
  }

  /** Only canonical texts decode: each octet string has exactly one accepted spelling. */
  lemma DecodesExactly(s: string, data: Bytes)
    ensures Decode(s) == Some(data) <==> s == Encode(data)
  {
    DecodeEncode(data);
    if Decode(s) == Some(data) {
      SextetsOfOctets(Values(s));
      SymbolsOfValues(s);
    }
  }

  /** The test vectors of section 10 of RFC 4648, and one for the two symbols of section 5. */
  lemma KnownEncodings()
    ensures Encode([102]) == "Zg" && Encode([102, 111]) == "Zm8" && Encode([102, 111, 111]) == "Zm9v"
    ensures Encode([251, 239, 255]) == "--__"
  {
    assert ToSextets([102]) == [25, 32];
    assert ToSextets([102, 111]) == [25, 38, 60];
    assert ToSextets([102, 111, 111]) == [25, 38, 61, 47];
    assert ToSextets([251, 239, 255]) == [62, 62, 63, 63];
  }

  // ---- shape of an encoding ----

  lemma {:induction false} EncodeLength(data: Bytes)
    ensures |Encode(data)| == |data| / 3 * 4 + (if |data| % 3 == 0 then 0 else |data| % 3 + 1)
  {
    if |data| >= 3 {
      EncodeLength(data[3..]);
    }
  }

  lemma EncodeSymbols(data: Bytes)
    ensures AllSymbols(Encode(data))
  {
    ValuesOfSymbols(ToSextets(data));
  }

  lemma Associates(x: seq<Sextet>, y: seq<Sextet>, z: seq<Sextet>)
    ensures (x + y) + z == x + (y + z)
  {
  }

  lemma {:induction false} ToSextetsConcat(a: Bytes, b: Bytes)
    requires |a| % 3 == 0
    ensures ToSextets(a + b) == ToSextets(a) + ToSextets(b)
  {
    if a == [] {
      assert a + b == b;
    } else {
      var rest := a[3..];
      ToSextetsConcat(rest, b);
      assert (a + b)[3..] == rest + b;
      assert Split3(a + b) == Split3(a);
      Associates(Split3(a), ToSextets(rest), ToSextets(b));
    }
  }

  lemma EncodeConcat(a: Bytes, b: Bytes)
    requires |a| % 3 == 0
    ensures Encode(a + b) == Encode(a) + Encode(b)
  {
    ToSextetsConcat(a, b);
  }

  lemma AsciiBits(a: Byte, b: Byte, c: Byte)
    requires a < 128 && b < 128 && c < 128
    ensures Sextet0(a) != 62
    ensures Sextet1(a, b) != 62
    ensures Sextet2(b, c) != 62
  {
  }

  ghost predicate SevenBit(data: Bytes) {
    forall k | 0 <= k < |data| :: data[k] < 128
  }

  lemma AsciiFirstGroup(data: Bytes, i: nat)
    requires SevenBit(data)
    requires i < |ToSextets(data)| && i < 3
    ensures ToSextets(data)[i] != 62
  {
    var b, c := if |data| > 1 then data[1] else 0, if |data| > 2 then data[2] else 0;
    AsciiBits(data[0], b, c);
  }

  lemma LaterSextet(data: Bytes, i: nat)
    requires 4 <= i < |ToSextets(data)|
    ensures |data| >= 3 && i - 4 < |ToSextets(data[3..])| && ToSextets(data)[i] == ToSextets(data[3..])[i - 4]
  {
  }

  lemma {:induction false} AsciiGroup(data: Bytes, k: nat, r: nat)
    requires SevenBit(data)
    requires r < 3 && 4 * k + r < |ToSextets(data)|
    ensures ToSextets(data)[4 * k + r] != 62
    decreases k
  {
    if k == 0 {
      AsciiFirstGroup(data, r);
    } else {
      LaterSextet(data, 4 * k + r);
      AsciiGroup(data[3..], k - 1, r);
    }
  }

  /** Seven-bit octets put sextet 62 only in the last place of a group of four. */
  lemma AsciiSextets(data: Bytes, i: nat)
    requires SevenBit(data)
    requires i < |ToSextets(data)| && ToSextets(data)[i] == 62
    ensures i % 4 == 3
  {
    if i % 4 < 3 {
      AsciiGroup(data, i / 4, i % 4);
    }
  }

  lemma {:induction false} WholeGroups(data: Bytes, n: nat)
    requires |data| == 3 * n
    ensures |ToSextets(data)| == 4 * n
  {
    if n > 0 {
      WholeGroups(data[3..], n - 1);
    }
  }

  lemma AsciiDashes(data: Bytes, i: nat)
    requires SevenBit(data)
    requires i < |Encode(data)| && Encode(data)[i] == '-'
    ensures i % 4 == 3
  {
    DashIs62(ToSextets(data)[i]);
    AsciiSextets(data, i);
  }

  lemma {:induction false} ImpossibleLength(xs: seq<Sextet>)
    requires |xs| % 4 == 1
    ensures ToOctets(xs) == None
  {
    if |xs| >= 4 {
      ImpossibleLength(xs[4..]);
    }
  }
}
