/** Lower case of all of Unicode, and slices at octet offsets, as the file-name parser uses them. */
module LowerCase {
  import opened Wrappers
  import opened Text
  import Utf8

  const DOTTED_I: char := '\U{0130}'
  const DOT_ABOVE: char := '\U{0307}'

  /**
    * What is known of the lower case of single characters: ASCII letters, the Kelvin sign and the dotted capital I
    * are spelled out, and no other character outside ASCII gives an ASCII character.
    */
  ghost predicate IsFolding(f: char -> string) {
    forall c ::
      if c as int < 128 || c == KELVIN then f(c) == [LowerChar(c)]
      else if c == DOTTED_I then f(c) == ['i', DOT_ABOVE]
      else f(c) != "" && forall i | 0 <= i < |f(c)| :: f(c)[i] as int >= 128
  }

  function PlainFold(c: char): string {
    if c == DOTTED_I then ['i', DOT_ABOVE] else [LowerChar(c)]
  }

  type Folding = f: char -> string | IsFolding(f) witness PlainFold

  function Lowered(fold: Folding, s: string): string {
    if s == "" then "" else fold(s[0]) + Lowered(fold, s[1..])
  }

  lemma {:induction false} LoweredConcat(fold: Folding, s: string, t: string)
    ensures Lowered(fold, s + t) == Lowered(fold, s) + Lowered(fold, t)
  {
    if s == "" {
      assert s + t == t;
    } else {
      LoweredConcat(fold, s[1..], t);
      assert (s + t)[1..] == s[1..] + t;
      Associates(fold(s[0]), Lowered(fold, s[1..]), Lowered(fold, t));
    }
  }

  lemma Associates(a: string, b: string, c: string)
    ensures (a + b) + c == a + (b + c)
  {
  }

  /** Characters whose lower case is the one of the length-preserving map. */
  predicate IsSimple(c: char) {
    c as int < 128 || c == KELVIN
  }

  lemma FoldOf(fold: Folding, c: char)
    ensures IsSimple(c) ==> fold(c) == [LowerChar(c)]
    ensures c == DOTTED_I ==> fold(c) == ['i', DOT_ABOVE]
    ensures !IsSimple(c) && c != DOTTED_I ==>
              fold(c) != "" && forall i | 0 <= i < |fold(c)| :: fold(c)[i] as int >= 128
    ensures !IsSimple(c) ==> LowerChar(c) == c && c as int >= 128
  {
  }

  lemma {:induction false} SimpleLowered(fold: Folding, s: string)
    requires forall i | 0 <= i < |s| :: IsSimple(s[i])
    ensures Lowered(fold, s) == Lower(s)
  {
    if s != "" {
      FoldOf(fold, s[0]);
      SimpleLowered(fold, s[1..]);
      assert Lower(s) == [LowerChar(s[0])] + Lower(s[1..]);
    }
  }

  // ---- the tags and extensions that the parser looks for ----

  /** ASCII, and not ending in the letter that the dotted capital I gives. */
  ghost predicate IsPattern(p: string) {
    p != "" && p[|p| - 1] != 'i' && forall i | 0 <= i < |p| :: p[i] as int < 128
  }

  lemma PatternTail(p: string)
    requires IsPattern(p) && |p| > 1
    ensures IsPattern(p[1..])
  {
  }

  lemma NoPrefix(p: string, t: string, k: nat)
    requires k < |p| && (k < |t| ==> p[k] != t[k])
    ensures !(p <= t)
  {
  }

  lemma OtherStart(p: string, a: string, rest: string)
    requires IsPattern(p) && a != "" && (a[0] as int >= 128 || a == ['i', DOT_ABOVE])
    ensures !(p <= a + rest)
  {
    var t := a + rest;
    assert t[0] == a[0] && (|a| == 2 ==> t[1] == a[1]);
    NoPrefix(p, t, if a[0] as int >= 128 || |p| == 1 then 0 else 1);
  }

  /** The same texts start with the pattern, whichever lower case is taken. */
  lemma {:induction false} SameStart(fold: Folding, s: string, p: string)
    requires IsPattern(p)
    ensures p <= Lowered(fold, s) <==> p <= Lower(s)
    decreases |p|
  {
    if s != "" {
      var c, rest := s[0], Lowered(fold, s[1..]);
      FoldOf(fold, c);
      assert Lower(s) == [LowerChar(c)] + Lower(s[1..]);
      if IsSimple(c) {
        StartsWithFirst(p, LowerChar(c), rest);
        StartsWithFirst(p, LowerChar(c), Lower(s[1..]));
        if |p| > 1 {
          PatternTail(p);
          SameStart(fold, s[1..], p[1..]);
        }
      } else {
        OtherStart(p, fold(c), rest);
        OtherStart(p, [c], Lower(s[1..]));
      }
    }
  }

  lemma StartsWithFirst(p: string, c: char, rest: string)
    requires p != ""
    ensures p <= [c] + rest <==> p[0] == c && p[1..] <= rest
  {
    assert ([c] + rest)[1..] == rest;
    assert p == [p[0]] + p[1..];
  }

  // ---- where a tag starts ----

  lemma {:induction false} FindSkips(a: string, s: string, pattern: string)
    requires pattern != "" && QuietFor(a + s, |a|, pattern)
    ensures Find(a + s, pattern) == |a| + Find(s, pattern)
  {
    if a == "" {
      assert a + s == s;
    } else {
      QuietTail(a, s, pattern);
      FindSkips(a[1..], s, pattern);
    }
  }

  lemma FoldIsQuiet(fold: Folding, c: char, rest: string, pattern: string)
    requires pattern != "" && pattern[0] as int < 128 && pattern[0] != 'i' && !(pattern <= fold(c) + rest)
    ensures QuietFor(fold(c) + rest, |fold(c)|, pattern)
  {
    FoldOf(fold, c);
    var t := fold(c) + rest;
    forall i: nat | i < |fold(c)|
      ensures !MatchAt(t, i, pattern)
    {
      if i == 0 {
        NotAtStart(t, pattern);
      } else {
        Mismatch(t, i, pattern, 0);
      }
    }
  }

  lemma NotAtStart(t: string, pattern: string)
    requires !(pattern <= t)
    ensures !MatchAt(t, 0, pattern)
  {
    assert |pattern| <= |t| ==> t[0..|pattern|] == t[..|pattern|];
  }

  /** The first occurrence of a tag is at the same character, whichever lower case is taken. */
  lemma {:induction false} SameFind(fold: Folding, s: string, p: string)
    requires IsPattern(p) && p[0] != 'i'
    ensures Find(Lower(s), p) <= |s|
    ensures Find(Lowered(fold, s), p) == |Lowered(fold, s[..Find(Lower(s), p)])|
    decreases |s|
  {
    SameStart(fold, s, p);
    if s == "" {
    } else if p <= Lower(s) {
      assert s[..0] == "";
    } else {
      var n := Find(Lower(s[1..]), p);
      assert Lower(s)[1..] == Lower(s[1..]);
      SameFind(fold, s[1..], p);
      FoldIsQuiet(fold, s[0], Lowered(fold, s[1..]), p);
      FindSkips(fold(s[0]), Lowered(fold, s[1..]), p);
      assert s[..1 + n][1..] == s[1..][..n];
    }
  }

  lemma {:induction false} FoundIsMatch(s: string, p: string)
    requires p != ""
    ensures Contains(s, p) <==> Find(s, p) < |s|
  {
    FindIsFirst(s, p);
    if Contains(s, p) {
      var i: nat :| i <= |s| && MatchAt(s, i, p);
    }
  }

  lemma {:induction false} LoweredIsEmpty(fold: Folding, s: string)
    ensures Lowered(fold, s) == "" <==> s == ""
  {
    if s != "" {
      FoldOf(fold, s[0]);
    }
  }

  lemma PrefixIsShorter(fold: Folding, s: string, n: nat)
    requires n <= |s|
    ensures |Lowered(fold, s[..n])| < |Lowered(fold, s)| <==> n < |s|
  {
    LoweredConcat(fold, s[..n], s[n..]);
    LoweredIsEmpty(fold, s[n..]);
    assert s == s[..n] + s[n..];
  }

  /** A tag occurs in both lower cases or in neither. */
  lemma SameContains(fold: Folding, s: string, p: string)
    requires IsPattern(p) && p[0] != 'i'
    ensures Contains(Lowered(fold, s), p) <==> Contains(Lower(s), p)
  {
    FoundIsMatch(Lower(s), p);
    FoundIsMatch(Lowered(fold, s), p);
    SameFind(fold, s, p);
    PrefixIsShorter(fold, s, Find(Lower(s), p));
  }

  // ---- how a text ends ----

  lemma EndsWithLast(s: string, c: char, p: string)
    requires p != ""
    ensures EndsWith(s + [c], p) <==> p[|p| - 1] == c && EndsWith(s, p[..|p| - 1])
  {
    var t, m := s + [c], |p| - 1;
    if |p| <= |t| {
      var n := |t| - |p|;
      assert t[n..] == s[n..] + [c];
      assert p == p[..m] + [p[m]];
      assert t[n..] == p <==> s[n..] == p[..m] && c == p[m] by {
        assert t[n..][m] == c && t[n..][..m] == s[n..];
      }
    }
  }

  lemma OtherEnd(s: string, a: string, p: string)
    requires p != "" && p[|p| - 1] as int < 128 && a != "" && a[|a| - 1] as int >= 128
    ensures !EndsWith(s + a, p)
  {
    var t := s + a;
    assert t[|t| - 1] == a[|a| - 1];
    assert |p| <= |t| ==> t[|t| - |p|..][|p| - 1] == t[|t| - 1];
  }

  /** The same texts end with an extension, whichever lower case is taken. */
  lemma {:induction false} SameEnd(fold: Folding, s: string, p: string)
    requires forall i | 0 <= i < |p| :: p[i] as int < 128
    ensures EndsWith(Lowered(fold, s), p) <==> EndsWith(Lower(s), p)
    decreases |p|
  {
    if s != "" && p != "" {
      var n := |s| - 1;
      var c, rest := s[n], Lowered(fold, s[..n]);
      assert s == s[..n] + [c];
      LoweredConcat(fold, s[..n], [c]);
      LoweredOne(fold, c);
      assert Lower(s) == Lower(s[..n]) + [LowerChar(c)];
      FoldOf(fold, c);
      if IsSimple(c) {
        EndsWithLast(rest, LowerChar(c), p);
        EndsWithLast(Lower(s[..n]), LowerChar(c), p);
        SameEnd(fold, s[..n], p[..|p| - 1]);
      } else {
        OtherEnd(rest, fold(c), p);
        OtherEnd(Lower(s[..n]), [LowerChar(c)], p);
      }
    }
  }

  lemma LoweredOne(fold: Folding, c: char)
    ensures Lowered(fold, [c]) == fold(c)
  {
    assert [c][1..] == "";
  }

  // ---- slices at octet offsets ----

  /** Index of the character that starts at an octet offset; none inside a character or beyond the end. */
  function CharAt(s: string, o: nat): (k: Option<nat>)
    ensures k.Some? ==> k.value <= |s|
  {
    if o == 0 then Some(0)
    else if s == "" || o < |Utf8.EncodeChar(s[0])| then None
    else
      match CharAt(s[1..], o - |Utf8.EncodeChar(s[0])|)
      case None => None
      case Some(k) => Some(1 + k)
  }

  function Octets(s: string): nat {
    |Utf8.Encode(s)|
  }

  /** The octets from the offset on; slicing anywhere else panics. */
  function From(s: string, o: nat): Option<string> {
    match CharAt(s, o)
    case None => None
    case Some(k) => Some(s[k..])
  }

  /** The text without its last n octets. */
  function WithoutLast(s: string, n: nat): Option<string> {
    if Octets(s) < n then None
    else
      match CharAt(s, Octets(s) - n)
      case None => None
      case Some(k) => Some(s[..k])
  }

  lemma {:induction false} CharAtPrefix(s: string, t: string)
    ensures CharAt(s + t, Octets(s)) == Some(|s|)
  {
    if s == "" {
    } else {
      assert (s + t)[1..] == s[1..] + t;
      CharAtPrefix(s[1..], t);
    }
  }

  lemma FromBehind(s: string, t: string)
    ensures From(s + t, Octets(s)) == Some(t)
  {
    CharAtPrefix(s, t);
    assert (s + t)[|s|..] == t;
  }

  lemma WithoutBehind(s: string, t: string)
    ensures WithoutLast(s + t, Octets(t)) == Some(s)
  {
    Utf8.EncodeConcat(s, t);
    CharAtPrefix(s, t);
    assert (s + t)[..|s|] == s;
  }

  lemma {:induction false} CharAtConcat(s: string, t: string, o: nat)
    ensures o <= Octets(s) && CharAt(s, o).Some? ==> CharAt(s + t, o) == CharAt(s, o)
    ensures o < Octets(s) && CharAt(s, o).None? ==> CharAt(s + t, o).None?
  {
    if s != "" && o > 0 {
      assert (s + t)[1..] == s[1..] + t;
      if o >= |Utf8.EncodeChar(s[0])| {
        CharAtConcat(s[1..], t, o - |Utf8.EncodeChar(s[0])|);
      }
    }
  }

  lemma {:induction false} CharAtFurther(s: string, t: string, o: nat)
    ensures CharAt(s + t, Octets(s) + o) ==
            match CharAt(t, o) case None => None case Some(k) => Some(|s| + k)
  {
    if s == "" {
      assert s + t == t;
    } else {
      assert (s + t)[1..] == s[1..] + t;
      CharAtFurther(s[1..], t, o);
    }
  }

  lemma OctetsOfAscii(s: string)
    requires forall i | 0 <= i < |s| :: s[i] as int < 128
    ensures Octets(s) == |s|
  {
    Utf8.EncodeAscii(s);
  }
}
