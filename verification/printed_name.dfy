/** The file name that the printing program hands out (src/naming.rs), and why it never gives the licence back. */
module PrintedNames {
  import opened Wrappers
  import opened LicenceJson
  import opened LicenceSizes
  import opened LowerCase
  import opened JsonTexts
  import opened Text
  import opened CustomServers
  import opened CodeWindows
  import opened FileNames
  import opened CutNames
  import Base64Url
  import Utf8

  const PRINTED_FRONT := "rustdesk" + "-" + "custom_serverd" + "-"

  /** What a signature makes of the octets of a name. */
  function SignedName(verify: Verify, name: string): Option<CustomServer> {
    match Base64Url.Decode(Reverse(name))
    case None => None
    case Some(data) => FromSigned(verify, data)
  }

  /** That is the licence whose text the payload of the signed octets is. */
  lemma SignedNameIs(verify: Verify, name: string, lic: CustomServer)
    ensures SignedName(verify, name) == Some(lic) <==>
            exists data: Bytes :: name == CodeName(data) && verify(data).Some? && IsTextOf(verify(data).value, lic)
  {
    forall data: Bytes | name == CodeName(data)
      ensures Base64Url.Decode(Reverse(name)) == Some(data)
    {
      ReverseTwice(Base64Url.Encode(data));
      Base64Url.DecodeEncode(data);
    }
    if Base64Url.Decode(Reverse(name)).Some? {
      var data := Base64Url.Decode(Reverse(name)).value;
      Base64Url.DecodesExactly(Reverse(name), data);
      ReverseTwice(name);
      assert name == CodeName(data);
      if verify(data).Some? {
        SliceIsText(verify(data).value, lic);
      }
    }
  }

  // ---- names that begin like the front ----

  /** The sextets of such a name, read from its end. */
  ghost predicate EndsInRust(xs: seq<Base64Url.Sextet>) {
    && |xs| >= 4 && xs[|xs| - 4] == 45 && xs[|xs| - 3] == 44
    && xs[|xs| - 2] == 46 && xs[|xs| - 1] == 43
  }

  lemma ShortEnd(xs: seq<Base64Url.Sextet>)
    requires 1 <= |xs| < 4 && xs[|xs| - 1] == 43
    ensures Base64Url.ToOctets(xs).None?
  {
  }

  lemma LastGroup(xs: seq<Base64Url.Sextet>)
    requires EndsInRust(xs) && |xs| < 8 && Base64Url.ToOctets(xs).Some?
    ensures var y := Base64Url.ToOctets(xs).value; y != [] && y[|y| - 1] == 171
  {
    if |xs| > 4 {
      ShortEnd(xs[4..]);
    } else {
      assert xs[4..] == [];
      assert Base64Url.ToOctets(xs).value == Base64Url.Join4(xs) + [];
    }
  }

  /** Their octets end in one that no text of a licence ends in. */
  lemma {:induction false} LastOctet(xs: seq<Base64Url.Sextet>)
    requires EndsInRust(xs) && Base64Url.ToOctets(xs).Some?
    ensures var y := Base64Url.ToOctets(xs).value; y != [] && y[|y| - 1] == 171
  {
    if |xs| < 8 {
      LastGroup(xs);
    } else {
      LastOctet(xs[4..]);
      var y := Base64Url.ToOctets(xs[4..]).value;
      assert Base64Url.ToOctets(xs).value == Base64Url.Join4(xs) + y;
    }
  }

  lemma NoTextEndsSo(y: Bytes)
    requires y != [] && y[|y| - 1] >= 128
    ensures FromSlice(y).None?
  {
    if FromSlice(y).Some? {
      Utf8.LastChar(y);
      LastCharacter(Utf8.Decode(y).value);
    }
  }

  ghost predicate BeginsLikeFront(s: string) {
    |s| >= 4 && s[0] == 'r' && s[1] == 'u' && s[2] == 's' && s[3] == 't'
  }

  lemma CodeOfFront(s: string)
    requires BeginsLikeFront(s) && Base64Url.AllSymbols(s)
    ensures Base64Url.AllSymbols(Reverse(s)) && EndsInRust(Base64Url.Values(Reverse(s)))
  {
    var back := Reverse(s);
    assert back[|s| - 1] == 'r' && back[|s| - 2] == 'u' && back[|s| - 3] == 's' && back[|s| - 4] == 't';
  }

  /** Such a name holds what a signature makes of it, and nothing by itself. */
  lemma FrontNeedsSignature(verify: Verify, s: string)
    requires BeginsLikeFront(s) && Base64Url.AllSymbols(s)
    ensures FromConfigString(verify, s) == SignedName(verify, s)
  {
    CodeOfFront(s);
    var xs := Base64Url.Values(Reverse(s));
    if Base64Url.ToOctets(xs).Some? {
      LastOctet(xs);
      NoTextEndsSo(Base64Url.ToOctets(xs).value);
    }
  }

  // ---- the front is not cut off ----

  /** What follows a hyphen starts no delimiter. */
  ghost predicate LoneHyphens(front: string) {
    forall i | 0 <= i < |front| - 1 && front[i] == '-' :: front[i + 1] != 'l' && front[i + 1] != '-'
  }

  /** A front that ends in a single hyphen, where no delimiter begins: the parser cannot cut it off. */
  ghost predicate Merges(front: string) {
    && Base64Url.AllSymbols(front) && LoneHyphens(front)
    && BeginsLikeFront(front) && front[|front| - 1] == '-' && |front| <= 24
  }

  lemma TwoWords(a: string, b: string)
    requires '-' !in a && '-' !in b && b != "" && b[0] != 'l'
    ensures LoneHyphens(a + "-" + b + "-")
  {
    var front := a + "-" + b + "-";
    forall i | 0 <= i < |front| - 1
      ensures front[i] == '-' ==> front[i + 1] != 'l' && front[i + 1] != '-'
    {
      if i < |a| {
        assert front[i] == a[i] && a[i] in a;
      } else if i > |a| {
        assert front[i] == b[i - |a| - 1] && b[i - |a| - 1] in b;
      } else {
        assert front[i + 1] == b[0] && b[0] in b;
      }
    }
  }

  lemma TwoWordsMerge(a: string, b: string)
    requires '-' !in a && '-' !in b && b != "" && b[0] != 'l' && BeginsLikeFront(a) && |a| + |b| <= 22
    requires Base64Url.AllSymbols(a) && Base64Url.AllSymbols(b)
    ensures Merges(a + "-" + b + "-")
  {
    TwoWords(a, b);
    assert Base64Url.IsSymbol('-');
  }

  lemma PrintedFrontMerges()
    ensures Merges(PRINTED_FRONT)
  {
    assert Base64Url.AllSymbols("rustdesk");
    assert Base64Url.AllSymbols("custom_serverd");
    TwoWordsMerge("rustdesk", "custom_serverd");
  }

  lemma MergedIsQuiet(front: string, rest: string, pattern: string)
    requires Merges(front) && (rest != "" ==> rest[0] != '-' && rest[0] != 'l')
    requires LICENSED <= pattern || pattern == "--"
    ensures QuietFor(front + rest, |front|, pattern)
  {
    var s := front + rest;
    assert LICENSED <= pattern ==> pattern[0] == LICENSED[0] && pattern[1] == LICENSED[1];
    forall i: nat | i < |front|
      ensures !MatchAt(s, i, pattern)
    {
      if i + 1 < |front| {
        assert s[i + 1] == front[i + 1];
      } else {
        assert rest != "" ==> s[i + 1] == rest[0];
      }
      Mismatch(s, i, pattern, if s[i] != '-' then 0 else 1);
    }
  }

  lemma MergedReplace(front: string, rest: string, pattern: string)
    requires Merges(front) && rest != "" && rest[0] in {'9', 'Q', '0'} && LICENSED <= pattern
    ensures Replace(front + rest, pattern, "--") == front + Replace(rest, pattern, "--")
  {
    MergedIsQuiet(front, rest, pattern);
    ReplaceSkips(front, rest, pattern, "--");
  }

  lemma MergedNormalise(front: string, name: string)
    requires Merges(front) && NameEnds(name)
    ensures Normalise(front + name) == front + Normalise(name)
    ensures var n := Normalise(name); n != "" && n[0] == name[0] && |n| <= |name| && Base64Url.AllSymbols(n)
  {
    var r1 := Replace(name, "-licensed---", "--");
    var r2 := Replace(r1, "-licensed--", "--");
    ReplaceShortens(name, "-licensed---");
    ReplaceShortens(r1, "-licensed--");
    ReplaceShortens(r2, LICENSED);
    MergedReplace(front, name, "-licensed---");
    MergedReplace(front, r1, "-licensed--");
    MergedReplace(front, r2, LICENSED);
  }

  lemma MergedSplit(front: string, rest: string)
    requires Merges(front) && rest != "" && rest[0] in {'9', 'Q', '0'}
    ensures Split(front + rest, "--") == [front + Split(rest, "--")[0]] + Split(rest, "--")[1..]
  {
    MergedIsQuiet(front, rest, "--");
    SplitSkips(front, rest, "--");
  }

  lemma MergedUntagged(front: string, name: string)
    requires Base64Url.AllSymbols(front) && Base64Url.AllSymbols(name)
    ensures Untagged(front + name) && Base64Url.AllSymbols(front + name)
  {
    assert forall c | c in front + name :: Base64Url.IsSymbol(c);
    NoEqualsNoTag(front + name);
  }

  /** The whole file name: the first segment holds the front, the others what is cut off behind it. */
  lemma MergedSegments(verify: Verify, fold: Folding, front: string, name: string, exe: string)
    requires Merges(front) && NameEnds(name) && Lower(exe) == ".exe"
    ensures var parts := Split(Normalise(name), "--");
            FromString(verify, fold, front + name + exe) ==
            Returned(FromSegments(verify, [front + parts[0]] + parts[1..]))
  {
    StripsExe(front + name, exe);
    NameIsNotExe(front, name, "");
    assert name + "" == name;
    StrippedIs(fold, front + name + exe);
    MergedUntagged(front, name);
    WithoutTag(verify, fold, front + name);
    MergedNormalise(front, name);
    MergedSplit(front, Normalise(name));
  }

  // ---- what the file name gives ----

  lemma FrontSegment(verify: Verify, front: string, part: string)
    requires Merges(front) && Base64Url.AllSymbols(part)
    ensures FromSegment(verify, front + part) == SignedName(verify, front + part)
  {
    MergedUntagged(front, part);
    SymbolSegment(verify, front + part);
    FrontNeedsSignature(verify, front + part);
  }

  lemma UncutParts(name: string)
    requires NameEnds(name) && Uncut(name)
    ensures Normalise(name) == name && Split(name, "--") == [name]
  {
    UncutReplace(name, "-licensed---");
    UncutReplace(name, "-licensed--");
    UncutReplace(name, LICENSED);
    forall i: nat | i < |name|
      ensures !MatchAt(name, i, "--")
    {
    }
    SplitNever(name, "--");
  }

  lemma UncutReplace(name: string, pattern: string)
    requires NameEnds(name) && Uncut(name) && LICENSED <= pattern
    ensures Replace(name, pattern, "--") == name
  {
    assert name + "" == name;
    NameIsQuiet(name, "", pattern);
    ReplaceSkips(name, "", pattern, "--");
  }

  /**
    * The file name that the printing program writes is refused by the parser it is meant for: its front ends in a
    * single hyphen, so it is decoded together with the licence. Only if the octets of both together happen to be a
    * signed message is there a result, and it is then the payload's.
    */
  lemma PrintedNameIsRefused(verify: Verify, fold: Folding, lic: CustomServer, other: CustomServer)
    requires Uncut(GenName(lic))
    ensures var r := FromString(verify, fold, PRINTED_FRONT + GenName(lic) + ".exe");
            && r.Returned?
            && (r.lic == Some(other) <==>
                  exists data: Bytes :: PRINTED_FRONT + GenName(lic) == CodeName(data)
                    && verify(data).Some? && IsTextOf(verify(data).value, other))
  {
    PrintedFrontMerges();
    LowerExe();
    MergedName(verify, fold, PRINTED_FRONT, lic, ".exe");
    SignedNameIs(verify, PRINTED_FRONT + GenName(lic), other);
  }

  lemma MergedName(verify: Verify, fold: Folding, front: string, lic: CustomServer, exe: string)
    requires Merges(front) && Uncut(GenName(lic)) && Lower(exe) == ".exe"
    ensures FromString(verify, fold, front + GenName(lic) + exe)
         == Returned(SignedName(verify, front + GenName(lic)))
  {
    var name := GenName(lic);
    GenNameEnds(lic);
    MergedSegments(verify, fold, front, name, exe);
    UncutParts(name);
    FrontSegment(verify, front, name);
    assert [name][1..] == [];
    SegmentAlone(verify, front + name);
  }

  // ---- the licence never comes back ----

  /** A payload behind a signature is too short for the licence. */
  lemma PayloadIsShort(verify: Verify, lic: CustomServer, y: Bytes)
    requires IsSigned(verify) && |y| <= |Utf8.Encode(Print(lic))| + 18
    ensures FromSigned(verify, y) != Some(lic)
  {
    if FromSigned(verify, y) == Some(lic) {
      var payload := verify(y).value;
      DecodedSize(payload);
      TextIsLong(Utf8.Decode(payload).value, lic);
      PrintIsShort(lic);
    }
  }

  lemma OctetsOfPart(data: Bytes, xs: seq<Base64Url.Sextet>)
    requires |xs| <= |Base64Url.ToSextets(data)| + 24 && Base64Url.ToOctets(xs).Some?
    ensures |Base64Url.ToOctets(xs).value| <= |data| + 18
  {
    OctetCount(xs);
    SextetCount(data);
  }

  lemma SignedFrontFails(verify: Verify, lic: CustomServer, s: string)
    requires IsSigned(verify) && |s| <= |GenName(lic)| + 24
    ensures SignedName(verify, s) != Some(lic)
  {
    var r := Base64Url.Decode(Reverse(s));
    if r.Some? {
      OctetsOfPart(Utf8.Encode(Print(lic)), Base64Url.Values(Reverse(s)));
      PayloadIsShort(verify, lic, r.value);
    }
  }

  lemma FrontSegmentFails(verify: Verify, front: string, part: string, lic: CustomServer)
    requires IsSigned(verify) && Merges(front) && Base64Url.AllSymbols(part) && |part| <= |GenName(lic)|
    ensures FromSegment(verify, front + part) != Some(lic)
  {
    FrontSegment(verify, front, part);
    SignedFrontFails(verify, lic, front + part);
  }

  lemma OtherSegmentsFail(verify: Verify, front: string, parts: seq<string>, lic: CustomServer)
    requires IsSigned(verify) && Merges(front) && parts != []
    requires Base64Url.AllSymbols(parts[0]) && |parts[0]| <= |GenName(lic)|
    requires forall part | part in parts[1..] :: IsProperPart(GenName(lic), part)
    ensures FromSegments(verify, [front + parts[0]] + parts[1..]) != Some(lic)
  {
    var segments := [front + parts[0]] + parts[1..];
    forall segment | segment in segments
      ensures FromSegment(verify, segment) != Some(lic)
    {
      if segment == front + parts[0] {
        FrontSegmentFails(verify, front, parts[0], lic);
      } else {
        assert segment in parts[1..];
        SegmentFails(verify, segment, lic);
      }
    }
    NoSegmentHolds(verify, segments, lic);
  }

  lemma PartsOfName(lic: CustomServer)
    ensures var parts := Split(Normalise(GenName(lic)), "--");
            && Base64Url.AllSymbols(parts[0]) && |parts[0]| <= |GenName(lic)|
            && forall part | part in parts[1..] :: IsProperPart(GenName(lic), part)
  {
    var name := GenName(lic);
    var parts := Split(Normalise(name), "--");
    GenNameEnds(lic);
    if Uncut(name) {
      UncutParts(name);
    } else {
      SegmentsAreParts(name);
      assert parts[0] in parts && IsProperPart(name, parts[0]);
      PartSymbols(name, parts[0]);
      assert forall part | part in parts[1..] :: part in parts;
    }
  }

  /** The printed file name never gives the licence back, cut or not, signed or not. */
  lemma PrintedNameIsLost(verify: Verify, fold: Folding, lic: CustomServer)
    requires IsSigned(verify)
    ensures FromString(verify, fold, PRINTED_FRONT + GenName(lic) + ".exe") != Returned(Some(lic))
  {
    PrintedFrontMerges();
    LowerExe();
    MergedIsLost(verify, fold, PRINTED_FRONT, lic, ".exe");
  }

  lemma MergedIsLost(verify: Verify, fold: Folding, front: string, lic: CustomServer, exe: string)
    requires IsSigned(verify) && Merges(front) && Lower(exe) == ".exe"
    ensures FromString(verify, fold, front + GenName(lic) + exe) != Returned(Some(lic))
  {
    GenNameEnds(lic);
    MergedSegments(verify, fold, front, GenName(lic), exe);
    PartsOfName(lic);
    OtherSegmentsFail(verify, front, Split(Normalise(GenName(lic)), "--"), lic);
  }
}
