/** What a stretch of a base64url text decodes to: the octets behind the text, or mixtures of neighbouring ones. */
module CodeWindows {
  import opened Wrappers
  import opened Base64Url

  /** Octet k; zero bits follow the last one. */
  function At(data: Bytes, k: nat): Byte {
    if k < |data| then data[k] else 0
  }

  /** The octet that a decoder sees which starts r sextets late: the low bits of one and the high bits of the next. */
  function Mixed(a: Byte, b: Byte, r: nat): Byte
    requires 1 <= r <= 3
  {
    if r == 1 then a % 4 * 64 + b / 4
    else if r == 2 then a % 16 * 16 + b / 16
    else a % 64 * 4 + b / 64
  }

  /** y is what the octets give from sextet r of their first group on. */
  ghost predicate Seen(data: Bytes, r: nat, y: Bytes)
    requires r < 4
  {
    if r == 0 then |y| <= |data| && forall n | 0 <= n < |y| :: y[n] == data[n]
    else
      && |y| + r - 1 <= |data|
      && forall n | 0 <= n < |y| :: y[n] == Mixed(At(data, n + r - 1), At(data, n + r), r)
  }

  // ---- the sextets of the first two groups ----

  function SextetOf(data: Bytes, k: nat): Sextet
    requires k < 8
  {
    var o := if k < 4 then 0 else 3;
    if k % 4 == 0 then Sextet0(At(data, o))
    else if k % 4 == 1 then Sextet1(At(data, o), At(data, o + 1))
    else if k % 4 == 2 then Sextet2(At(data, o + 1), At(data, o + 2))
    else Sextet3(At(data, o + 2))
  }

  lemma FirstSextets(data: Bytes, k: nat)
    requires k < 4 && k < |ToSextets(data)|
    ensures ToSextets(data)[k] == SextetOf(data, k)
  {
  }

  lemma ShiftedSextet(data: Bytes, k: nat)
    requires |data| >= 3 && 4 <= k < 8
    ensures SextetOf(data[3..], k - 4) == SextetOf(data, k)
  {
    assert At(data[3..], 0) == At(data, 3) && At(data[3..], 1) == At(data, 4) && At(data[3..], 2) == At(data, 5);
    assert (k - 4) % 4 == k % 4;
  }

  lemma SecondSextets(data: Bytes, k: nat)
    requires k < 8 && k < |ToSextets(data)|
    ensures ToSextets(data)[k] == SextetOf(data, k)
  {
    if k < 4 {
      FirstSextets(data, k);
    } else {
      LaterSextet(data, k);
      FirstSextets(data[3..], k - 4);
      ShiftedSextet(data, k);
    }
  }

  // ---- the mixtures ----

  lemma MixedByOne(a: Byte, b: Byte, c: Byte, d: Byte)
    ensures Octet0(Sextet1(a, b), Sextet2(b, c)) == Mixed(a, b, 1)
    ensures Octet1(Sextet2(b, c), Sextet3(c)) == Mixed(b, c, 1)
    ensures Octet2(Sextet3(c), Sextet0(d)) == Mixed(c, d, 1)
  {
  }

  lemma MixedByTwo(b: Byte, c: Byte, d: Byte, e: Byte)
    ensures Octet0(Sextet2(b, c), Sextet3(c)) == Mixed(b, c, 2)
    ensures Octet1(Sextet3(c), Sextet0(d)) == Mixed(c, d, 2)
    ensures Octet2(Sextet0(d), Sextet1(d, e)) == Mixed(d, e, 2)
  {
  }

  lemma MixedByThree(c: Byte, d: Byte, e: Byte, f: Byte)
    ensures Octet0(Sextet3(c), Sextet0(d)) == Mixed(c, d, 3)
    ensures Octet1(Sextet0(d), Sextet1(d, e)) == Mixed(d, e, 3)
    ensures Octet2(Sextet1(d, e), Sextet2(e, f)) == Mixed(e, f, 3)
  {
  }

  lemma Unmixed(a: Byte, b: Byte, c: Byte)
    ensures Octet0(Sextet0(a), Sextet1(a, b)) == a
    ensures Octet1(Sextet1(a, b), Sextet2(b, c)) == b
    ensures Octet2(Sextet2(b, c), Sextet3(c)) == c
  {
    OctetBits(a, b, c);
  }

  /** What one octet of the first group of three shows. */
  function SeenAt(data: Bytes, r: nat, n: nat): Byte
    requires r < 4
  {
    if r == 0 then At(data, n) else Mixed(At(data, n + r - 1), At(data, n + r), r)
  }

  /** The three octets of four sextets show this. */
  ghost predicate ShowsGroup(data: Bytes, r: nat)
    requires r < 4
  {
    && Octet0(SextetOf(data, r), SextetOf(data, r + 1)) == SeenAt(data, r, 0)
    && Octet1(SextetOf(data, r + 1), SextetOf(data, r + 2)) == SeenAt(data, r, 1)
    && Octet2(SextetOf(data, r + 2), SextetOf(data, r + 3)) == SeenAt(data, r, 2)
  }

  lemma AlignedGroup(data: Bytes)
    ensures ShowsGroup(data, 0)
  {
    Unmixed(At(data, 0), At(data, 1), At(data, 2));
  }

  lemma GroupByOne(data: Bytes)
    ensures ShowsGroup(data, 1)
  {
    MixedByOne(At(data, 0), At(data, 1), At(data, 2), At(data, 3));
  }

  lemma GroupByTwo(data: Bytes)
    ensures ShowsGroup(data, 2)
  {
    MixedByTwo(At(data, 1), At(data, 2), At(data, 3), At(data, 4));
  }

  lemma GroupByThree(data: Bytes)
    ensures ShowsGroup(data, 3)
  {
    MixedByThree(At(data, 2), At(data, 3), At(data, 4), At(data, 5));
  }

  lemma GroupSeen(data: Bytes, r: nat)
    requires r < 4
    ensures ShowsGroup(data, r)
  {
    AlignedGroup(data);
    GroupByOne(data);
    GroupByTwo(data);
    GroupByThree(data);
  }

  /** y agrees with what is seen, as far as it goes. */
  ghost predicate Agrees(data: Bytes, r: nat, y: Bytes)
    requires r < 4
  {
    forall n | 0 <= n < |y| :: y[n] == SeenAt(data, r, n)
  }

  lemma {:induction false} SextetCount(data: Bytes)
    ensures 6 * |ToSextets(data)| <= 8 * |data| + 4
  {
    if |data| >= 3 {
      SextetCount(data[3..]);
    }
  }

  lemma {:induction false} OctetCount(xs: seq<Sextet>)
    requires ToOctets(xs).Some?
    ensures 8 * |ToOctets(xs).value| <= 6 * |xs|
  {
    if |xs| >= 4 {
      OctetCount(xs[4..]);
    }
  }

  lemma ShortWindow(data: Bytes, r: nat, zs: seq<Sextet>)
    requires r < 4 && |zs| < 4 && r + |zs| <= |ToSextets(data)| && zs == ToSextets(data)[r..r + |zs|]
    requires ToOctets(zs).Some?
    ensures Agrees(data, r, ToOctets(zs).value)
  {
    GroupSeen(data, r);
    if |zs| >= 2 {
      SecondSextets(data, r);
      SecondSextets(data, r + 1);
      assert zs[0] == SextetOf(data, r) && zs[1] == SextetOf(data, r + 1);
      if |zs| == 3 {
        SecondSextets(data, r + 2);
        assert zs[2] == SextetOf(data, r + 2);
      }
    }
  }

  lemma JoinedGroup(data: Bytes, r: nat, zs: seq<Sextet>)
    requires r < 4 && |zs| >= 4 && r + 4 <= |ToSextets(data)|
    requires forall k | 0 <= k < 4 :: zs[k] == ToSextets(data)[r + k]
    ensures Agrees(data, r, Join4(zs))
  {
    GroupSeen(data, r);
    SecondSextets(data, r);
    SecondSextets(data, r + 1);
    SecondSextets(data, r + 2);
    SecondSextets(data, r + 3);
    assert zs[0] == SextetOf(data, r) && zs[1] == SextetOf(data, r + 1);
    assert zs[2] == SextetOf(data, r + 2) && zs[3] == SextetOf(data, r + 3);
  }

  lemma AgreesFurther(data: Bytes, r: nat, group: Bytes, rest: Bytes)
    requires r < 4 && |data| >= 3 && |group| == 3 && Agrees(data, r, group) && Agrees(data[3..], r, rest)
    ensures Agrees(data, r, group + rest)
  {
    forall n | 3 <= n < 3 + |rest|
      ensures (group + rest)[n] == SeenAt(data, r, n)
    {
      assert (group + rest)[n] == rest[n - 3] == SeenAt(data[3..], r, n - 3);
    }
  }

  /** Without the first group of sextets: the octets without the first three. */
  lemma NextGroup(data: Bytes)
    requires |ToSextets(data)| >= 4
    ensures |data| >= 3 && ToSextets(data)[4..] == ToSextets(data[3..])
  {
    assert ToSextets(data) == Split3(data) + ToSextets(data[3..]);
  }

  lemma SliceBehind(xs: seq<Sextet>, a: nat, n: nat)
    requires 4 + a + n <= |xs|
    ensures xs[4 + a..4 + a + n] == xs[4..][a..a + n]
  {
    var one, two := xs[4 + a..4 + a + n], xs[4..][a..a + n];
    assert |one| == |two| == n;
    forall i | 0 <= i < n
      ensures one[i] == two[i]
    {
      assert one[i] == xs[4 + a + i];
      assert two[i] == xs[4..][a + i] == xs[4 + (a + i)];
    }
  }

  lemma DropBehind(data: Bytes, n: nat)
    requires 3 + n <= |data|
    ensures data[3 + n..] == data[3..][n..]
  {
  }

  lemma {:induction false} FirstWindow(data: Bytes, r: nat, zs: seq<Sextet>)
    requires r < 4 && r + |zs| <= |ToSextets(data)| && zs == ToSextets(data)[r..r + |zs|]
    requires ToOctets(zs).Some?
    ensures Agrees(data, r, ToOctets(zs).value)
    decreases |zs|
  {
    if |zs| < 4 {
      ShortWindow(data, r, zs);
    } else {
      NextGroup(data);
      SliceBehind(ToSextets(data), r, |zs| - 4);
      assert zs[4..] == ToSextets(data)[4 + r..4 + r + (|zs| - 4)];
      JoinedGroup(data, r, zs);
      FirstWindow(data[3..], r, zs[4..]);
      AgreesFurther(data, r, Join4(zs), ToOctets(zs[4..]).value);
    }
  }

  lemma WindowSeen(data: Bytes, r: nat, zs: seq<Sextet>)
    requires r < 4 && r + |zs| <= |ToSextets(data)| && zs == ToSextets(data)[r..r + |zs|]
    requires ToOctets(zs).Some?
    ensures Seen(data, r, ToOctets(zs).value)
  {
    FirstWindow(data, r, zs);
    SextetCount(data);
    OctetCount(zs);
  }

  /** From any sextet on: the octets from the one in which it starts, or mixtures of them. */
  lemma {:induction false} Window(data: Bytes, q: nat, r: nat, zs: seq<Sextet>)
    requires r < 4 && 4 * q + r + |zs| <= |ToSextets(data)|
    requires zs == ToSextets(data)[4 * q + r..4 * q + r + |zs|] && ToOctets(zs).Some?
    ensures 3 * q <= |data| && Seen(data[3 * q..], r, ToOctets(zs).value)
    decreases q
  {
    if q == 0 {
      assert data[0..] == data;
      WindowSeen(data, r, zs);
    } else {
      NextGroup(data);
      var p := 4 * (q - 1) + r;
      assert 4 * q + r == 4 + p;
      SliceBehind(ToSextets(data), p, |zs|);
      Window(data[3..], q - 1, r, zs);
      DropBehind(data, 3 * (q - 1));
    }
  }
}
