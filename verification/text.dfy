/** The string operations of the Rust standard library that the file-name parser uses. */
module Text {

  function Reverse(s: string): (r: string)
    ensures |r| == |s|
  {
    seq(|s|, i requires 0 <= i < |s| => s[|s| - 1 - i])
  }

  lemma ReverseTwice(s: string)
    ensures Reverse(Reverse(s)) == s
  {
  }

  /** The one letter outside ASCII whose lower case is an ASCII letter alone. */
  const KELVIN: char := '\U{212A}'

  /** Lower case of the ASCII letters and the Kelvin sign: all that can give an ASCII letter of a tag. */
  function LowerChar(c: char): char {
    if 'A' <= c <= 'Z' then (c as int + 32) as char else if c == KELVIN then 'k' else c
  }

  function Lower(s: string): (r: string)
    ensures |r| == |s|
    ensures forall i | 0 <= i < |s| :: r[i] == LowerChar(s[i])
  {
    seq(|s|, i requires 0 <= i < |s| => LowerChar(s[i]))
  }

  predicate EndsWith(s: string, suffix: string) {
    |suffix| <= |s| && s[|s| - |suffix|..] == suffix
  }

  predicate MatchAt(s: string, i: nat, pattern: string) {
    i + |pattern| <= |s| && s[i..i + |pattern|] == pattern
  }

  predicate Contains(s: string, pattern: string) {
    exists i: nat | i <= |s| :: MatchAt(s, i, pattern)
  }

  /** Index of the first occurrence; |s| when there is none. */
  function Find(s: string, pattern: string): (r: nat)
    ensures r <= |s|
  {
    if s == "" || pattern <= s then 0 else 1 + Find(s[1..], pattern)
  }

  lemma ShiftMatch(s: string, i: nat, pattern: string)
    requires s != ""
    ensures MatchAt(s, i + 1, pattern) == MatchAt(s[1..], i, pattern)
  {
    if i + 1 + |pattern| <= |s| {
      assert s[1..][i..i + |pattern|] == s[i + 1..i + 1 + |pattern|];
    }
  }

  lemma {:induction false} FindIsFirst(s: string, pattern: string)
    ensures forall i: nat | i < Find(s, pattern) :: !MatchAt(s, i, pattern)
    ensures Find(s, pattern) < |s| ==> MatchAt(s, Find(s, pattern), pattern)
  {
    if s != "" && !(pattern <= s) {
      var r := Find(s[1..], pattern);
      FindIsFirst(s[1..], pattern);
      forall i: nat | i <= r
        ensures !MatchAt(s, i, pattern)
      {
        if i > 0 {
          ShiftMatch(s, i - 1, pattern);
        }
      }
      ShiftMatch(s, r, pattern);
    }
  }

  /** White_Space of the Unicode character database. */
  predicate IsSpace(c: char) {
    var v := c as int;
    9 <= v <= 13 || v in {0x20, 0x85, 0xA0, 0x1680, 0x2028, 0x2029, 0x202F, 0x205F, 0x3000} || 0x2000 <= v <= 0x200A
  }

  function TrimStart(s: string): string {
    if s != "" && IsSpace(s[0]) then TrimStart(s[1..]) else s
  }

  function TrimEnd(s: string): string {
    if s != "" && IsSpace(s[|s| - 1]) then TrimEnd(s[..|s| - 1]) else s
  }

  function Trim(s: string): string {
    TrimEnd(TrimStart(s))
  }

  /** Every non-overlapping occurrence, from the left. */
  function Replace(s: string, pattern: string, by_: string): string
    requires pattern != ""
    decreases |s|
  {
    if s == "" then ""
    else if pattern <= s then by_ + Replace(s[|pattern|..], pattern, by_)
    else [s[0]] + Replace(s[1..], pattern, by_)
  }

  function Split(s: string, sep: string): (parts: seq<string>)
    requires sep != ""
    ensures |parts| >= 1
    decreases |s|
  {
    if s == "" then [""]
    else if sep <= s then [""] + Split(s[|sep|..], sep)
    else
      var rest := Split(s[1..], sep);
      [[s[0]] + rest[0]] + rest[1..]
  }

  /** The parts with the separator between them. */
  function Join(parts: seq<string>, sep: string): string
    requires parts != []
  {
    if |parts| == 1 then parts[0] else parts[0] + (sep + Join(parts[1..], sep))
  }

  // ---- moving over a stretch of text where nothing matches ----

  /** No occurrence of pattern in s starts among the first n characters. */
  ghost predicate QuietFor(s: string, n: nat, pattern: string) {
    forall i: nat | i < n :: !MatchAt(s, i, pattern)
  }

  /** One differing character rules an occurrence out. */
  lemma Mismatch(s: string, i: nat, pattern: string, k: nat)
    requires k < |pattern|
    requires i + |pattern| <= |s| ==> s[i + k] != pattern[k]
    ensures !MatchAt(s, i, pattern)
  {
    if i + |pattern| <= |s| {
      assert s[i..i + |pattern|][k] == s[i + k];
    }
  }

  lemma NoLongerMatch(s: string, i: nat, short: string, pattern: string)
    requires short <= pattern && !MatchAt(s, i, short)
    ensures !MatchAt(s, i, pattern)
  {
    if i + |pattern| <= |s| {
      assert s[i..i + |pattern|][..|short|] == s[i..i + |short|];
      assert pattern[..|short|] == short;
    }
  }

  lemma QuietWithout(a: string, s: string, pattern: string)
    requires pattern != "" && pattern[0] !in a
    ensures QuietFor(a + s, |a|, pattern)
  {
    forall i: nat | i < |a|
      ensures !MatchAt(a + s, i, pattern)
    {
      assert a[i] in a;
      Mismatch(a + s, i, pattern, 0);
    }
  }

  lemma QuietTail(a: string, s: string, pattern: string)
    requires a != "" && QuietFor(a + s, |a|, pattern)
    ensures !(pattern <= a + s)
    ensures (a + s)[1..] == a[1..] + s
    ensures QuietFor(a[1..] + s, |a| - 1, pattern)
  {
    var t := a + s;
    if pattern <= t {
      assert MatchAt(t, 0, pattern);
    }
    assert t[1..] == a[1..] + s;
    forall i: nat | i < |a| - 1
      ensures !MatchAt(t[1..], i, pattern)
    {
      assert !MatchAt(t, i + 1, pattern);
      if i + |pattern| <= |t[1..]| {
        assert t[1..][i..i + |pattern|] == t[i + 1..i + 1 + |pattern|];
      }
    }
  }

  lemma {:induction false} ReplaceSkips(a: string, s: string, pattern: string, by_: string)
    requires pattern != "" && QuietFor(a + s, |a|, pattern)
    ensures Replace(a + s, pattern, by_) == a + Replace(s, pattern, by_)
  {
    if a == "" {
      assert a + s == s;
    } else {
      QuietTail(a, s, pattern);
      ReplaceSkips(a[1..], s, pattern, by_);
      assert a == [a[0]] + a[1..];
    }
  }

  lemma ReplaceMatch(s: string, pattern: string, by_: string)
    requires pattern != ""
    ensures Replace(pattern + s, pattern, by_) == by_ + Replace(s, pattern, by_)
  {
    assert (pattern + s)[|pattern|..] == s;
  }

  lemma {:induction false} SplitSkips(a: string, s: string, sep: string)
    requires sep != "" && QuietFor(a + s, |a|, sep)
    ensures Split(a + s, sep) == [a + Split(s, sep)[0]] + Split(s, sep)[1..]
  {
    if a == "" {
      assert a + s == s;
      assert a + Split(s, sep)[0] == Split(s, sep)[0];
    } else {
      QuietTail(a, s, sep);
      SplitSkips(a[1..], s, sep);
      assert a == [a[0]] + a[1..];
      assert [a[0]] + (a[1..] + Split(s, sep)[0]) == a + Split(s, sep)[0];
    }
  }

  lemma SplitMatch(s: string, sep: string)
    requires sep != ""
    ensures Split(sep + s, sep) == [""] + Split(s, sep)
  {
    assert (sep + s)[|sep|..] == s;
  }

  lemma SplitOnce(a: string, s: string, sep: string)
    requires sep != "" && QuietFor(a + sep + s, |a|, sep)
    ensures Split(a + sep + s, sep) == [a] + Split(s, sep)
  {
    assert a + sep + s == a + (sep + s);
    SplitSkips(a, sep + s, sep);
    SplitMatch(s, sep);
    assert a + "" == a;
  }

  lemma SplitNever(a: string, sep: string)
    requires sep != "" && QuietFor(a, |a|, sep)
    ensures Split(a, sep) == [a]
  {
    assert a + "" == a;
    SplitSkips(a, "", sep);
  }

  // ---- trimming ----

  lemma {:induction false} TrimEndDropsSpaces(s: string, spaces: string)
    requires s != "" && !IsSpace(s[|s| - 1])
    requires forall i | 0 <= i < |spaces| :: IsSpace(spaces[i])
    ensures TrimEnd(s + spaces) == s
  {
    if spaces == "" {
      assert s + spaces == s;
    } else {
      var n := |spaces| - 1;
      assert (s + spaces)[..|s| + n] == s + spaces[..n];
      TrimEndDropsSpaces(s, spaces[..n]);
    }
  }

  lemma TrimDropsSpaces(s: string, spaces: string)
    requires s != "" && !IsSpace(s[0]) && !IsSpace(s[|s| - 1])
    requires forall i | 0 <= i < |spaces| :: IsSpace(spaces[i])
    ensures Trim(s + spaces) == s
  {
    TrimEndDropsSpaces(s, spaces);
  }

  lemma {:induction false} TrimStartDropsSpaces(spaces: string, s: string)
    requires s != "" && !IsSpace(s[0])
    requires forall i | 0 <= i < |spaces| :: IsSpace(spaces[i])
    ensures TrimStart(spaces + s) == s
  {
    if spaces == "" {
      assert spaces + s == s;
    } else {
      assert (spaces + s)[1..] == spaces[1..] + s;
      TrimStartDropsSpaces(spaces[1..], s);
    }
  }

  /** White space goes on both sides, and nothing else. */
  lemma TrimBoth(front: string, s: string, back: string)
    requires s != "" && !IsSpace(s[0]) && !IsSpace(s[|s| - 1])
    requires forall i | 0 <= i < |front| :: IsSpace(front[i])
    requires forall i | 0 <= i < |back| :: IsSpace(back[i])
    ensures Trim(front + (s + back)) == s
  {
    TrimStartDropsSpaces(front, s + back);
    TrimEndDropsSpaces(s, back);
  }

  lemma {:induction false} TrimEndKeeps(s: string, c: char)
    requires c in s && !IsSpace(c)
    ensures c in TrimEnd(s)
  {
    if IsSpace(s[|s| - 1]) {
      assert s == s[..|s| - 1] + [s[|s| - 1]];
      TrimEndKeeps(s[..|s| - 1], c);
    }
  }

  lemma {:induction false} TrimStartKeeps(s: string, c: char)
    requires c in s && !IsSpace(c)
    ensures c in TrimStart(s)
  {
    if IsSpace(s[0]) {
      assert s == [s[0]] + s[1..];
      TrimStartKeeps(s[1..], c);
    }
  }

  lemma TrimKeeps(s: string, c: char)
    requires c in s && !IsSpace(c)
    ensures c in Trim(s)
  {
    TrimStartKeeps(s, c);
    TrimEndKeeps(TrimStart(s), c);
  }
}
