/** UTF-8 (RFC 3629). A Dafny char is a Unicode scalar value, so a Dafny string is a Rust String. */
module Utf8 {
  import opened Wrappers

  predicate IsScalar(v: int) {
    0 <= v < 0xD800 || 0xE000 <= v < 0x11_0000
  }

  predicate IsTail(b: Byte) {
    0x80 <= b < 0xC0
  }

  // A tail octet holds the low six bits of a value; the rest moves to the octets before it.
  function Tail(v: nat): Byte { 0x80 + v % 0x40 }
  function Rest(v: nat): nat { v / 0x40 }
  function Join(rest: int, tail: Byte): int { rest * 0x40 + (tail as int - 0x80) }

  function EncodeChar(c: char): (b: Bytes)
    ensures 1 <= |b| <= 4
  {
    var v := c as int;
    if v < 0x80 then [v]
    else if v < 0x800 then [0xC0 + Rest(v), Tail(v)]
    else if v < 0x1_0000 then [0xE0 + Rest(Rest(v)), Tail(Rest(v)), Tail(v)]
    else [0xF0 + Rest(Rest(Rest(v))), Tail(Rest(Rest(v))), Tail(Rest(v)), Tail(v)]
  }

  function Encode(s: string): Bytes {
    if s == "" then [] else EncodeChar(s[0]) + Encode(s[1..])
  }

  function Code(b: Bytes, n: nat): int
    requires 1 <= n <= 4 && n <= |b|
  {
    var lead: int := b[0];
    if n == 1 then lead
    else if n == 2 then Join(lead - 0xC0, b[1])
    else if n == 3 then Join(Join(lead - 0xE0, b[1]), b[2])
    else Join(Join(Join(lead - 0xF0, b[1]), b[2]), b[3])
  }

  /** The scalar value that the first n octets spell, when they spell it in its shortest form. */
  function Scalar(b: Bytes, n: nat): Option<char>
    requires 1 <= n <= 4
  {
    if |b| < n || exists k | 1 <= k < n :: !IsTail(b[k]) then None
    else
      var v := Code(b, n);
      var least := if n == 1 then 0 else if n == 2 then 0x80 else if n == 3 then 0x800 else 0x1_0000;
      if v >= least && IsScalar(v) then Some(v as char) else None
  }

  /** How many octets a leading octet announces; 0 when it cannot lead. */
  function Announced(lead: Byte): (n: nat)
    ensures n <= 4
  {
    if lead < 0x80 then 1
    else if lead < 0xC0 then 0
    else if lead < 0xE0 then 2
    else if lead < 0xF0 then 3
    else if lead < 0xF8 then 4
    else 0
  }

  function Decode(b: Bytes): Option<string> {
    if |b| == 0 then Some("")
    else
      var n := Announced(b[0]);
      if n == 0 then None
      else
        match Scalar(b, n)
        case None => None
        case Some(c) =>
          match Decode(b[n..])
          case None => None
          case Some(rest) => Some([c] + rest)
  }

  lemma JoinBits(v: nat)
    ensures Join(Rest(v), Tail(v)) == v && IsTail(Tail(v))
  {
  }

  lemma CodeOfChar(c: char, rest: Bytes)
    ensures var e := EncodeChar(c);
            && Announced(e[0]) == |e|
            && Code(e + rest, |e|) == c as int
            && forall k | 1 <= k < |e| :: IsTail(e[k])
  {
    var v := c as int;
    JoinBits(v);
    if v >= 0x800 {
      JoinBits(Rest(v));
      if v >= 0x1_0000 {
        JoinBits(Rest(Rest(v)));
      }
    }
  }

  lemma ScalarOfChar(c: char, b: Bytes, rest: Bytes)
    requires b == EncodeChar(c) + rest
    ensures b != [] && Announced(b[0]) == |EncodeChar(c)|
    ensures Scalar(b, Announced(b[0])) == Some(c)
  {
    var e := EncodeChar(c);
    CodeOfChar(c, rest);
    assert IsScalar(c as int);
    assert forall k | 0 <= k < |e| :: b[k] == e[k];
  }

  lemma {:induction false} DecodeEncode(s: string)
    ensures Decode(Encode(s)) == Some(s)
  {
    if s != "" {
      var e, rest := EncodeChar(s[0]), Encode(s[1..]);
      ScalarOfChar(s[0], e + rest, rest);
      assert (e + rest)[|e|..] == rest;
      DecodeEncode(s[1..]);
      assert [s[0]] + s[1..] == s;
    }
  }

  lemma SplitBits(rest: nat, tail: Byte)
    requires IsTail(tail)
    ensures var v := Join(rest, tail);
            v == rest * 0x40 + (tail as int - 0x80) && v >= 0 && Rest(v) == rest && Tail(v) == tail
  {
  }

  lemma CodeOfTwo(x: Byte, y: Byte)
    requires 0xC0 <= x < 0xE0 && IsTail(y)
    ensures var v := Join(x - 0xC0, y); v >= 0x80 ==> EncodeChar(v as char) == [x, y]
  {
    SplitBits(x - 0xC0, y);
  }

  lemma CodeOfThree(x: Byte, y: Byte, z: Byte)
    requires 0xE0 <= x < 0xF0 && IsTail(y) && IsTail(z)
    ensures var v := Join(Join(x - 0xE0, y), z); v >= 0x800 && IsScalar(v) ==> EncodeChar(v as char) == [x, y, z]
  {
    SplitBits(x - 0xE0, y);
    SplitBits(Join(x - 0xE0, y), z);
  }

  lemma CodeOfFour(w: Byte, x: Byte, y: Byte, z: Byte)
    requires 0xF0 <= w < 0xF8 && IsTail(x) && IsTail(y) && IsTail(z)
    ensures var v := Join(Join(Join(w - 0xF0, x), y), z);
            v >= 0x1_0000 && IsScalar(v) ==> EncodeChar(v as char) == [w, x, y, z]
  {
    SplitBits(w - 0xF0, x);
    SplitBits(Join(w - 0xF0, x), y);
    SplitBits(Join(Join(w - 0xF0, x), y), z);
  }

  /** What is read as a character is its only spelling. */
  lemma CharOfScalar(b: Bytes, n: nat)
    requires b != [] && n == Announced(b[0]) > 0 && Scalar(b, n).Some?
    ensures n <= |b| && EncodeChar(Scalar(b, n).value) == b[..n]
  {
    assert forall k | 1 <= k < n :: IsTail(b[k]);
    if n == 1 {
      assert b[..1] == [b[0]];
    } else if n == 2 {
      CodeOfTwo(b[0], b[1]);
      assert b[..2] == [b[0], b[1]];
    } else if n == 3 {
      CodeOfThree(b[0], b[1], b[2]);
      assert b[..3] == [b[0], b[1], b[2]];
    } else {
      CodeOfFour(b[0], b[1], b[2], b[3]);
      assert b[..4] == [b[0], b[1], b[2], b[3]];
    }
  }

  lemma DecodeStep(b: Bytes, n: nat)
    requires b != [] && n == Announced(b[0]) && Decode(b).Some?
    ensures 0 < n <= |b| && Scalar(b, n).Some? && Decode(b[n..]).Some?
    ensures Decode(b).value == [Scalar(b, n).value] + Decode(b[n..]).value
  {
  }

  lemma EncodeStep(c: char, rest: string)
    ensures Encode([c] + rest) == EncodeChar(c) + Encode(rest)
  {
    assert ([c] + rest)[1..] == rest;
  }

  lemma {:induction false} EncodeDecode(b: Bytes)
    requires Decode(b).Some?
    ensures Encode(Decode(b).value) == b
  {
    if b != [] {
      var n := Announced(b[0]);
      DecodeStep(b, n);
      CharOfScalar(b, n);
      EncodeDecode(b[n..]);
      EncodeStep(Scalar(b, n).value, Decode(b[n..]).value);
      assert b == b[..n] + b[n..];
    }
  }

  /** Octets spell a text if and only if they are its encoding: no overlong form, no surrogate. */
  lemma DecodesExactly(b: Bytes, s: string)
    ensures Decode(b) == Some(s) <==> b == Encode(s)
  {
    DecodeEncode(s);
    if Decode(b).Some? {
      EncodeDecode(b);
    }
  }

  lemma Associates(a: Bytes, b: Bytes, c: Bytes)
    ensures (a + b) + c == a + (b + c)
  {
  }

  lemma {:induction false} EncodeConcat(s: string, t: string)
    ensures Encode(s + t) == Encode(s) + Encode(t)
  {
    if s == "" {
      assert s + t == t;
    } else {
      EncodeConcat(s[1..], t);
      assert (s + t)[1..] == s[1..] + t;
      Associates(EncodeChar(s[0]), Encode(s[1..]), Encode(t));
    }
  }

  lemma {:induction false} EncodeAscii(s: string)
    requires forall i | 0 <= i < |s| :: s[i] as int < 128
    ensures |Encode(s)| == |s| && forall i | 0 <= i < |s| :: Encode(s)[i] == s[i] as int
  {
    if s != "" {
      EncodeAscii(s[1..]);
    }
  }

  // ---- parts of a text ----

  /** Every octet that is no tail octet starts a character. */
  lemma {:induction false} FromLead(b: Bytes, n: nat)
    requires Decode(b).Some? && n < |b| && !IsTail(b[n])
    ensures Decode(b[n..]).Some?
  {
    var m := Announced(b[0]);
    if n == 0 {
      assert b[0..] == b;
    } else {
      assert m <= n by {
        assert Scalar(b, m).Some?;
      }
      FromLead(b[m..], n - m);
      assert b[m..][n - m..] == b[n..];
    }
  }

  /** The first octet and the first character. */
  lemma FirstChar(b: Bytes)
    requires b != [] && Decode(b).Some?
    ensures var t := Decode(b).value;
            && t != ""
            && (b[0] < 128 ==> t[0] as int == b[0] && Decode(b[1..]) == Some(t[1..]))
            && (b[0] >= 128 ==> t[0] as int >= 128)
  {
  }

  lemma {:induction false} AsciiIsKept(b: Bytes, n: nat)
    requires Decode(b).Some? && n < |b| && b[n] < 128
    ensures b[n] as char in Decode(b).value
  {
    var m := Announced(b[0]);
    FirstChar(b);
    if n > 0 {
      assert m <= n by {
        assert Scalar(b, m).Some?;
      }
      AsciiIsKept(b[m..], n - m);
    }
  }

  /** What the first octets of a text give is the beginning of the text. */
  lemma {:induction false} PrefixText(s: string, n: nat)
    requires n <= |Encode(s)| && Decode(Encode(s)[..n]).Some?
    ensures Decode(Encode(s)[..n]).value <= s
  {
    if n > 0 {
      var e, rest := EncodeChar(s[0]), Encode(s[1..]);
      CodeOfChar(s[0], rest);
      assert Encode(s)[..n][0] == e[0];
      assert |e| <= n;
      assert Encode(s)[..n] == e + rest[..n - |e|];
      ScalarOfChar(s[0], Encode(s)[..n], rest[..n - |e|]);
      assert Encode(s)[..n][|e|..] == rest[..n - |e|];
      PrefixText(s[1..], n - |e|);
      assert s == [s[0]] + s[1..];
    }
  }

  /** The last octet and the last character. */
  lemma {:induction false} LastChar(b: Bytes)
    requires b != [] && Decode(b).Some? && b[|b| - 1] >= 128
    ensures var t := Decode(b).value; t != "" && t[|t| - 1] as int >= 128
  {
    var n := Announced(b[0]);
    FirstChar(b);
    if b[n..] != [] {
      LastChar(b[n..]);
    } else {
      assert Decode(b[n..]) == Some("");
    }
  }
}
