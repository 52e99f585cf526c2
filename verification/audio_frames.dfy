/** When the drops of the jitter buffer are whole frames, and when they are not (src/client.rs). */
module AudioFrames {
  import opened Arithmetic
  import opened AudioStream
  import opened Wrappers

  /** The stream, the cursor, the drops and the capacity are whole numbers of frames. */
  predicate Framed<T>(a: Audio<T>, channels: nat)
    requires channels > 0
  {
    && |a.stream| % channels == 0 && a.cursor % channels == 0
    && a.dropped % channels == 0 && a.capacity % channels == 0
  }

  predicate WholeFrames<T>(e: Event<T>, channels: nat)
    requires channels > 0
  {
    match e
    case Resize(_, ch) => ch == channels
    case Append(buffer) => |buffer| % channels == 0
    case Shrink(_) => true
    case Read(n) => n % channels == 0
  }

  /** The water marks at which something is dropped. */
  predicate IsMark(m: nat) {
    m == 4 || 6 <= m < BINS
  }

  ghost predicate WholeSkips(capacity: nat, channels: nat)
    requires channels > 0
  {
    forall m | 0 <= m < BINS && IsMark(m) :: SkipSize(capacity, m) % channels == 0
  }

  /** What can be checked before playback: at every water mark the drop is a whole number of frames. */
  ghost predicate WholeDrops(rate: nat, channels: nat)
    requires channels > 0
  {
    WholeSkips(3 * (rate * channels), channels)
  }

  // ---- when every drop is whole ----

  lemma MarksOf(hist: seq<nat>)
    requires |hist| == BINS && Busiest(hist) >= 6
    ensures Mark(hist) == 0 || IsMark(Mark(hist))
  {
  }

  lemma DropIsWhole(hist: seq<nat>, capacity: nat, having: nat, channels: nat)
    requires |hist| == BINS && channels > 0 && WholeSkips(capacity, channels)
    ensures DropSize(hist, capacity, having) % channels == 0
  {
    if Busiest(hist) >= 6 {
      MarksOf(hist);
      if Mark(hist) == 0 {
        NoMark(capacity);
      }
    }
  }

  lemma NoMark(capacity: nat)
    ensures SkipSize(capacity, 0) == 0
  {
    assert capacity * 0 == 0;
  }

  lemma CapacityOf(rate: nat, channels: nat)
    ensures rate * channels * BUFFER_MS / 1000 == 3 * (rate * channels)
  {
  }

  lemma FrameResize<T>(a: Audio<T>, rate: nat, channels: nat)
    requires channels > 0 && Framed(a, channels)
    ensures Framed(Resized(a, rate, channels), channels)
    ensures Resized(a, rate, channels).capacity == 3 * (rate * channels)
  {
    CapacityOf(rate, channels);
    assert 3 * (rate * channels) == (3 * rate) * channels;
    MultipleOf(3 * rate, channels);
    MultipleOf(0, channels);
  }

  lemma FrameAppend<T>(a: Audio<T>, buffer: seq<T>, channels: nat)
    requires Buffered(a) && channels > 0 && Framed(a, channels) && |buffer| % channels == 0
    ensures Framed(Appended(a, buffer), channels)
  {
    var n := |a.stream| + |buffer|;
    SumOfMultiples(|a.stream|, |buffer|, channels);
    if n - a.capacity > a.cursor {
      DifferenceOfMultiples(n, a.capacity, channels);
      DifferenceOfMultiples(n - a.capacity, a.cursor, channels);
      SumOfMultiples(a.dropped, n - a.capacity - a.cursor, channels);
    }
  }

  lemma FrameRead<T>(a: Audio<T>, n: nat, channels: nat)
    requires Buffered(a) && channels > 0 && Framed(a, channels) && n % channels == 0
    ensures Framed(Consumed(a, n), channels)
  {
    SumOfMultiples(a.cursor, n, channels);
  }

  lemma FramedAfterDrop<T>(a: Audio<T>, b: Audio<T>, drop: nat, channels: nat)
    requires channels > 0 && Framed(a, channels) && drop % channels == 0
    requires b.stream == a.stream && b.capacity == a.capacity
    requires b.cursor == a.cursor + drop && b.dropped == a.dropped + drop
    ensures Framed(b, channels)
  {
    SumOfMultiples(a.cursor, drop, channels);
    SumOfMultiples(a.dropped, drop, channels);
  }

  lemma FrameRollOver<T>(a: Audio<T>, now: int, channels: nat)
    requires |a.hist| == BINS && a.cursor <= |a.stream|
    requires channels > 0 && Framed(a, channels) && WholeSkips(a.capacity, channels)
    ensures Framed(RolledOver(a, now), channels)
  {
    var having := |a.stream| - a.cursor;
    DropIsWhole(a.hist, a.capacity, having, channels);
    FramedAfterDrop(a, RolledOver(a, now), DropSize(a.hist, a.capacity, having), channels);
  }

  lemma FrameShrink<T>(a: Audio<T>, level: nat, now: int, channels: nat)
    requires Valid(a) && channels > 0 && Framed(a, channels) && WholeSkips(a.capacity, channels)
    ensures Framed(Shrunk(a, level, now), channels)
  {
    FrameRollOver(WithLevel(a, level), now, channels);
  }

  /** The event keeps whole frames; a new size has whole drops. */
  ghost predicate KeepsFrames<T>(e: Event<T>, channels: nat)
    requires channels > 0
  {
    WholeFrames(e, channels) && (e.Resize? ==> WholeDrops(e.rate, channels))
  }

  lemma FrameStep<T>(a: Audio<T>, e: Event<T>, channels: nat)
    requires Invariant(a) && Enabled(a, e)
    requires channels > 0 && Framed(a, channels) && WholeSkips(a.capacity, channels) && KeepsFrames(e, channels)
    ensures Framed(Next(a, e), channels) && WholeSkips(Next(a, e).capacity, channels)
  {
    match e
    case Resize(rate, ch) => FrameResize(a, rate, channels);
    case Append(buffer) => FrameAppend(a, buffer, channels);
    case Shrink(now) => FrameShrink(a, a.pending.value, now, channels);
    case Read(n) => FrameRead(a, n, channels);
  }

  /** With sizes of whole drops, whole frames appended and whole frames read, everything stays whole frames. */
  lemma {:induction false} FramesKept<T>(a: Audio<T>, events: seq<Event<T>>, channels: nat)
    requires Invariant(a) && IsRun(a, events)
    requires channels > 0 && Framed(a, channels) && WholeSkips(a.capacity, channels)
    requires forall e | e in events :: KeepsFrames(e, channels)
    ensures Framed(After(a, events), channels)
    decreases |events|
  {
    if events != [] {
      FrameStep(a, events[0], channels);
      RunKeeps(a, [events[0]]);
      assert After(a, [events[0]]) == Next(a, events[0]);
      FramesKept(Next(a, events[0]), events[1..], channels);
    }
  }

  lemma EvenPart(x: nat)
    ensures (x - x % 2) % 2 == 0
  {
  }

  /** One or two channels always have whole drops. */
  lemma StereoDrops(rate: nat, channels: nat)
    requires channels == 1 || channels == 2
    ensures WholeDrops(rate, channels)
  {
    forall m | 0 <= m < BINS && IsMark(m)
      ensures SkipSize(3 * (rate * channels), m) % channels == 0
    {
      EvenPart(3 * (rate * channels) * m / (30 * 4) + 1);
    }
  }

  /** So has any number of channels at the rates of the Opus codec and at all other multiples of 80 Hz. */
  lemma CodecRateDrops(rate: nat, channels: nat)
    requires channels > 0 && rate % 80 == 0
    ensures WholeDrops(rate, channels)
  {
    forall m | 0 <= m < BINS && IsMark(m)
      ensures SkipSize(3 * (rate * channels), m) % channels == 0
    {
      CodecRateSkip(rate / 80, channels, m);
    }
  }

  lemma CodecRateSkip(k: nat, channels: nat, m: nat)
    requires channels > 0
    ensures SkipSize(3 * (80 * k * channels), m) % channels == 0
  {
    var y := k * m * channels;
    assert 3 * (80 * k * channels) * m == 240 * y;
    assert 240 * y / 120 == 2 * y;
    assert 2 * y == (2 * (k * m)) * channels;
    MultipleOf(2 * (k * m), channels);
  }

  // ---- playing packets to a chosen level ----

  /** Bin of a buffer of v frames. */
  function FrameBin(rate: nat, v: nat): (b: nat)
    requires rate > 0
    ensures b < BINS
  {
    if v * 10 / rate > 29 then 29 else v * 10 / rate
  }

  lemma BinOfFrames(rate: nat, channels: nat, v: nat)
    requires rate > 0 && channels > 0
    ensures rate * channels > 0 && Bin(Level(v * channels, rate * channels)) == FrameBin(rate, v)
  {
    QuotientOfScaled(v * 10, rate, channels);
    assert v * channels * 10 == v * 10 * channels;
  }

  lemma FrameBinOrder(rate: nat, u: nat, v: nat)
    requires rate > 0 && u <= v
    ensures FrameBin(rate, u) <= FrameBin(rate, v)
  {
    QuotientOrder(u * 10, v * 10, rate);
  }

  /** The least number of frames in a bin. */
  function FirstOf(rate: nat, b: nat): nat {
    (b * rate + 9) / 10
  }

  lemma FirstBin(rate: nat, b: nat)
    requires rate >= 10 && b < BINS
    ensures FrameBin(rate, FirstOf(rate, b)) == b
    ensures b * rate <= FirstOf(rate, b) * 10 && FirstOf(rate, b) <= 3 * rate
  {
    var v := FirstOf(rate, b);
    assert b * rate <= v * 10 <= b * rate + 9;
    QuotientUnique(v * 10, rate, b, v * 10 - b * rate);
    ScaledOrder(b, 29, rate);
  }

  lemma FirstOrder(rate: nat, a: nat, b: nat)
    requires a <= b
    ensures FirstOf(rate, a) <= FirstOf(rate, b)
  {
    ScaledOrder(a, b, rate);
    QuotientOrder(a * rate + 9, b * rate + 9, 10);
  }

  /** Between packets u frames are buffered, and nothing has been dropped. */
  predicate At<T>(a: Audio<T>, rate: nat, channels: nat, u: nat) {
    && a.perSecond == rate * channels && a.capacity == 3 * (rate * channels)
    && a.cursor <= |a.stream| && |a.stream| - a.cursor == u * channels
    && |a.hist| == BINS && a.pending.None? && a.dropped == 0
  }

  /** What a run of packets is made of: one size, equal packets, reads of whole frames, any clock. */
  ghost predicate Delivered<T>(e: Event<T>, rate: nat, channels: nat, packet: seq<T>)
    requires channels > 0
  {
    match e
    case Resize(r, ch) => r == rate && ch == channels
    case Append(buffer) => buffer == packet
    case Shrink(_) => true
    case Read(n) => n % channels == 0
  }

  ghost predicate AllDelivered<T>(events: seq<Event<T>>, rate: nat, channels: nat, packet: seq<T>)
    requires channels > 0
  {
    forall e | e in events :: Delivered(e, rate, channels, packet)
  }

  /** The run leads from a to b. */
  ghost predicate Leads<T>(a: Audio<T>, events: seq<Event<T>>, b: Audio<T>, rate: nat, channels: nat,
                           packet: seq<T>)
    requires channels > 0
  {
    IsRun(a, events) && After(a, events) == b && AllDelivered(events, rate, channels, packet)
  }

  lemma {:induction false} LeadsOn<T>(a: Audio<T>, e: seq<Event<T>>, b: Audio<T>, f: seq<Event<T>>, c: Audio<T>,
                                     rate: nat, channels: nat, packet: seq<T>)
    requires channels > 0 && Leads(a, e, b, rate, channels, packet) && Leads(b, f, c, rate, channels, packet)
    ensures Leads(a, e + f, c, rate, channels, packet)
    decreases |e|
  {
    if e == [] {
      assert e + f == f;
    } else {
      var a' := Next(a, e[0]);
      assert forall d | d in e[1..] :: d in e;
      LeadsOn(a', e[1..], b, f, c, rate, channels, packet);
      assert (e + f)[1..] == e[1..] + f;
      assert e[0] in e;
    }
  }

  lemma LeadsStep<T>(a: Audio<T>, e: Event<T>, b: Audio<T>, rate: nat, channels: nat, packet: seq<T>)
    requires channels > 0 && Valid(a) && Enabled(a, e) && Next(a, e) == b && Delivered(e, rate, channels, packet)
    ensures Leads(a, [e], b, rate, channels, packet)
  {
    assert [e][1..] == [];
    assert IsRun(b, []) && After(b, []) == b;
  }

  /** The buffer once the device has read and one more packet of p frames has arrived: v frames, not recorded yet. */
  lemma Refill<T>(a: Audio<T>, rate: nat, channels: nat, u: nat, v: nat, p: nat, packet: seq<T>)
    returns (events: seq<Event<T>>, b: Audio<T>)
    requires rate > 0 && channels > 0 && At(a, rate, channels, u) && |packet| == p * channels
    requires p <= v <= u + p && v <= 3 * rate
    ensures Leads(a, events, b, rate, channels, packet)
    ensures b.pending == Some(v * channels) && At(b.(pending := None), rate, channels, v)
    ensures b.hist == a.hist && b.tms == a.tms
  {
    var d := (u + p - v) * channels;
    AtLeastOnce(rate, channels);
    ScaledOrder(u + p - v, u, channels);
    ScaledOrder(v, 3 * rate, channels);
    MultipleOf(u + p - v, channels);
    assert d == u * channels + p * channels - v * channels by {
      assert (u + p - v) * channels == u * channels + p * channels - v * channels;
    }
    assert 3 * rate * channels == 3 * (rate * channels);
    var r := Consumed(a, d);
    b := Appended(r, packet);
    LeadsStep(a, Read(d), r, rate, channels, packet);
    LeadsStep(r, Append(packet), b, rate, channels, packet);
    events := [Read(d)] + [Append(packet)];
    LeadsOn(a, [Read(d)], r, [Append(packet)], b, rate, channels, packet);
  }

  /** One more level in a bin. */
  function OneMore(hist: seq<nat>, i: nat): (h: seq<nat>)
    requires i < |hist|
    ensures |h| == |hist|
  {
    hist[i := hist[i] + 1]
  }

  /** One more packet within a window: the level is recorded in its bin. */
  lemma Move<T>(a: Audio<T>, rate: nat, channels: nat, u: nat, v: nat, p: nat, packet: seq<T>, now: int)
    returns (events: seq<Event<T>>, b: Audio<T>)
    requires rate > 0 && channels > 0 && At(a, rate, channels, u) && |packet| == p * channels
    requires p <= v <= u + p && v <= 3 * rate
    requires now > 0 && (a.tms == 0 || now < a.tms + WINDOW_MS)
    ensures Leads(a, events, b, rate, channels, packet) && At(b, rate, channels, v)
    ensures b.hist == OneMore(a.hist, FrameBin(rate, v))
    ensures b.tms == if a.tms == 0 then now else a.tms
  {
    var e, c := Refill(a, rate, channels, u, v, p, packet);
    BinOfFrames(rate, channels, v);
    b := Shrunk(c, v * channels, now);
    LeadsStep(c, Shrink(now), b, rate, channels, packet);
    events := e + [Shrink(now)];
    LeadsOn(a, e, c, [Shrink(now)], b, rate, channels, packet);
  }

  /** One more packet at the end of a window. */
  lemma Roll<T>(a: Audio<T>, rate: nat, channels: nat, u: nat, p: nat, packet: seq<T>, now: int)
    returns (events: seq<Event<T>>, b: Audio<T>)
    requires rate > 0 && channels > 0 && At(a, rate, channels, u) && |packet| == p * channels
    requires p <= u <= 3 * rate
    requires now > 0 && a.tms != 0 && now >= a.tms + WINDOW_MS
    ensures Leads(a, events, b, rate, channels, packet)
    ensures b.dropped == DropSize(OneMore(a.hist, FrameBin(rate, u)), 3 * (rate * channels), u * channels)
    ensures b.dropped == 0 ==> At(b, rate, channels, u)
    ensures b.hist == Zeros(BINS) && b.tms == now
  {
    var e, c := Refill(a, rate, channels, u, u, p, packet);
    BinOfFrames(rate, channels, u);
    b := Shrunk(c, u * channels, now);
    LeadsStep(c, Shrink(now), b, rate, channels, packet);
    events := e + [Shrink(now)];
    LeadsOn(a, e, c, [Shrink(now)], b, rate, channels, packet);
  }

  /** Packets and shorter reads raise the level from u to v frames; no bin below that of u is touched. */
  lemma {:induction false} Rise<T>(a: Audio<T>, rate: nat, channels: nat, u: nat, v: nat, p: nat, packet: seq<T>,
                                  now: int)
    returns (events: seq<Event<T>>, b: Audio<T>)
    requires rate > 0 && channels > 0 && At(a, rate, channels, u) && |packet| == p * channels
    requires 1 <= p <= u <= v <= 3 * rate
    requires now > 0 && a.tms != 0 && now < a.tms + WINDOW_MS
    ensures Leads(a, events, b, rate, channels, packet) && At(b, rate, channels, v) && b.tms == a.tms
    ensures forall j | 0 <= j < FrameBin(rate, u) :: b.hist[j] == a.hist[j]
    ensures forall j | 0 <= j < BINS :: a.hist[j] <= b.hist[j]
    decreases v - u
  {
    if u == v {
      events, b := [], a;
    } else {
      var w := if u + p < v then u + p else v;
      var e, c := Move(a, rate, channels, u, w, p, packet, now);
      FrameBinOrder(rate, u, w);
      var f;
      f, b := Rise(c, rate, channels, w, v, p, packet, now);
      events := e + f;
      LeadsOn(a, e, c, f, b, rate, channels, packet);
    }
  }

  /** As many packets as reads: the level stays, and its bin counts n more. */
  lemma {:induction false} Hold<T>(a: Audio<T>, rate: nat, channels: nat, u: nat, n: nat, p: nat, packet: seq<T>,
                                  now: int)
    returns (events: seq<Event<T>>, b: Audio<T>)
    requires rate > 0 && channels > 0 && At(a, rate, channels, u) && |packet| == p * channels
    requires p <= u <= 3 * rate
    requires now > 0 && a.tms != 0 && now < a.tms + WINDOW_MS
    ensures Leads(a, events, b, rate, channels, packet) && At(b, rate, channels, u) && b.tms == a.tms
    ensures forall j | 0 <= j < BINS ::
              b.hist[j] == if j == FrameBin(rate, u) then a.hist[j] + n else a.hist[j]
    decreases n
  {
    if n == 0 {
      events, b := [], a;
    } else {
      var e, c := Move(a, rate, channels, u, u, p, packet, now);
      var f;
      f, b := Hold(c, rate, channels, u, n - 1, p, packet, now);
      events := e + f;
      LeadsOn(a, e, c, f, b, rate, channels, packet);
    }
  }

  // ---- a window with a chosen water mark ----

  /** At least every count. */
  function Top(hist: seq<nat>): (t: nat)
    ensures forall i | 0 <= i < |hist| :: hist[i] <= t
  {
    if hist == [] then 0
    else
      var t := Top(hist[..|hist| - 1]);
      if hist[|hist| - 1] > t then hist[|hist| - 1] else t
  }

  /** The water mark of a window whose lowest and fullest bins are these. */
  function MarkOf(lead: nat, busy: nat): nat {
    var zero := lead * 2 / 3;
    if busy > zero * 4 then zero * 4 else busy
  }

  lemma MarkOfBins(hist: seq<nat>, lead: nat, busy: nat)
    requires 0 < lead <= busy < |hist| && hist[lead] > 0
    requires forall j | 0 <= j < lead :: hist[j] == 0
    requires forall j | 0 <= j < |hist| && j != busy :: hist[j] < hist[busy]
    ensures Busiest(hist) == busy && Mark(hist) == MarkOf(lead, busy)
  {
    assert IsBusiest(hist, busy);
    BusiestIsUnique(hist, busy, Busiest(hist));
    assert LeadingEmpty(hist) == lead;
  }

  /** A window in which one of the two lowest bins is used drops nothing. */
  lemma LowBinDropsNothing(hist: seq<nat>, i: nat, capacity: nat, having: nat)
    requires i <= 1 && i < |hist| && hist[i] > 0
    ensures DropSize(hist, capacity, having) == 0
  {
    assert LeadingEmpty(hist) <= i;
    NoMark(capacity);
  }

  /** A first window of packets, in which nothing is dropped, leads to u frames. */
  lemma Fill<T>(a: Audio<T>, rate: nat, channels: nat, u: nat, p: nat, packet: seq<T>)
    returns (events: seq<Event<T>>, b: Audio<T>)
    requires rate > 0 && channels > 0 && At(a, rate, channels, 0) && |packet| == p * channels
    requires 1 <= p <= u <= 3 * rate && p * 10 <= rate && a.tms == 0 && a.hist == Zeros(BINS)
    ensures Leads(a, events, b, rate, channels, packet) && At(b, rate, channels, u)
    ensures b.hist == Zeros(BINS) && b.tms == 12001
  {
    var e1, a1 := Move(a, rate, channels, 0, p, p, packet, 1);
    var i := FrameBin(rate, p);
    LowBin(rate, p);
    var e2, a2 := Rise(a1, rate, channels, p, u, p, packet, 1);
    var e3, a3 := Roll(a2, rate, channels, u, p, packet, 12001);
    LowBinDropsNothing(OneMore(a2.hist, FrameBin(rate, u)), i, 3 * (rate * channels), u * channels);
    b := a3;
    LeadsOn(a, e1, a1, e2, a2, rate, channels, packet);
    LeadsOn(a, e1 + e2, a2, e3, a3, rate, channels, packet);
    events := e1 + e2 + e3;
  }

  lemma LowBin(rate: nat, p: nat)
    requires rate > 0 && p * 10 <= rate
    ensures FrameBin(rate, p) <= 1
  {
    QuotientOrder(p * 10, rate, rate);
    QuotientUnique(rate, rate, 1, 0);
  }

  /** A second window from u frames up to v, which stay until it ends. */
  lemma Window<T>(a: Audio<T>, rate: nat, channels: nat, u: nat, v: nat, p: nat, packet: seq<T>)
    returns (events: seq<Event<T>>, b: Audio<T>)
    requires rate > 0 && channels > 0 && At(a, rate, channels, u) && |packet| == p * channels
    requires 1 <= p <= u <= v <= 3 * rate && a.hist == Zeros(BINS) && a.tms == 12001
    requires FrameBin(rate, u) > 0 && FrameBin(rate, v) >= 6
    ensures Leads(a, events, b, rate, channels, packet)
    ensures var skip := SkipSize(3 * (rate * channels), MarkOf(FrameBin(rate, u), FrameBin(rate, v)));
            b.dropped == if v * channels > skip * 3 then skip else 0
  {
    var lead, busy := FrameBin(rate, u), FrameBin(rate, v);
    FrameBinOrder(rate, u, v);
    var e1, a1 := Hold(a, rate, channels, u, 1, p, packet, 12001);
    var e2, a2 := Rise(a1, rate, channels, u, v, p, packet, 12001);
    var e3, a3 := Hold(a2, rate, channels, v, 1 + Top(a2.hist), p, packet, 12001);
    var e4, a4 := Roll(a3, rate, channels, v, p, packet, 24001);
    MarkOfBins(OneMore(a3.hist, busy), lead, busy);
    b := a4;
    LeadsOn(a, e1, a1, e2, a2, rate, channels, packet);
    LeadsOn(a, e1 + e2, a2, e3, a3, rate, channels, packet);
    LeadsOn(a, e1 + e2 + e3, a3, e4, a4, rate, channels, packet);
    events := e1 + e2 + e3 + e4;
  }

  // ---- the exact condition ----

  /** The bins of a window that leads to the mark. */
  function LeadOf(m: nat): nat {
    if m == 4 then 2 else m
  }

  function BusyOf(m: nat): nat {
    if m == 4 then 6 else m
  }

  lemma MarkReached(m: nat)
    requires IsMark(m)
    ensures MarkOf(LeadOf(m), BusyOf(m)) == m
  {
  }

  lemma SkipAtMost(n: nat, m: nat, b: nat)
    requires m <= b
    ensures SkipSize(3 * n, m) * 40 <= n * b + 40
  {
    var x := 3 * n * m / 120;
    assert 120 * x <= 3 * n * m;
    ScaledOrder(m, b, n);
    assert 3 * n * m == 3 * (m * n) && b * n == n * b;
  }

  lemma LevelAtLeast(rate: nat, channels: nat, b: nat, v: nat)
    requires b * rate <= v * 10
    ensures rate * channels * b <= v * channels * 10
  {
    ScaledOrder(b * rate, v * 10, channels);
    assert b * rate * channels == rate * channels * b;
    assert v * 10 * channels == v * channels * 10;
  }

  /** Three times the drop is less than the least level of a bin that is not below the mark. */
  lemma GuardHolds(rate: nat, channels: nat, m: nat, b: nat, v: nat)
    requires rate * channels >= 30 && m <= b && 6 <= b && b * rate <= v * 10
    ensures v * channels > SkipSize(3 * (rate * channels), m) * 3
  {
    var n := rate * channels;
    SkipAtMost(n, m, b);
    LevelAtLeast(rate, channels, b, v);
    ScaledOrder(6, b, n);
    assert b * n == n * b;
  }

  /** A water mark at which the drop is not whole: packets of any length up to 100 ms bring such a drop about. */
  lemma FramesSplit<T>(rate: nat, channels: nat, m: nat, p: nat, packet: seq<T>)
    returns (events: seq<Event<T>>)
    requires channels > 0 && IsMark(m) && SkipSize(3 * (rate * channels), m) % channels != 0
    requires 1 <= p && p * 10 <= rate && |packet| == p * channels
    ensures IsPlayback(events, rate, channels, packet)
    ensures After(Initial(), events).dropped == SkipSize(3 * (rate * channels), m)
  {
    var a0 := Initial<T>();
    var a1 := Resized(a0, rate, channels);
    Opened(rate, channels, packet);
    var lead, busy := LeadOf(m), BusyOf(m);
    var u, v := FirstOf(rate, lead), FirstOf(rate, busy);
    MarkReached(m);
    FirstBin(rate, lead);
    FirstBin(rate, busy);
    FirstOrder(rate, lead, busy);
    ScaledOrder(2, lead, rate);
    var e1, a2 := Fill(a1, rate, channels, u, p, packet);
    var e2, a3 := Window(a2, rate, channels, u, v, p, packet);
    AtLeastThree(rate, channels, m);
    GuardHolds(rate, channels, m, busy, v);
    LeadsOn(a0, [Resize(rate, channels)], a1, e1, a2, rate, channels, packet);
    LeadsOn(a0, [Resize(rate, channels)] + e1, a2, e2, a3, rate, channels, packet);
    events := [Resize(rate, channels)] + e1 + e2;
  }

  lemma AtLeastThree(rate: nat, channels: nat, m: nat)
    requires channels > 0 && IsMark(m) && SkipSize(3 * (rate * channels), m) % channels != 0 && rate >= 10
    ensures channels >= 3 && rate * channels >= 30
  {
    if channels <= 2 {
      StereoDrops(rate, channels);
    }
    ScaledOrder(10, rate, channels);
  }

  lemma Opened<T>(rate: nat, channels: nat, packet: seq<T>)
    requires rate > 0 && channels > 0
    ensures var a := Resized(Initial(), rate, channels);
            && At(a, rate, channels, 0) && a.tms == 0 && a.hist == Zeros(BINS)
            && Leads(Initial(), [Resize(rate, channels)], a, rate, channels, packet)
  {
    CapacityOf(rate, channels);
    LeadsStep(Initial(), Resize(rate, channels), Resized(Initial(), rate, channels), rate, channels, packet);
  }

  /** A run of equal packets from the default buffer, once it has been given its size. */
  ghost predicate IsPlayback<T>(events: seq<Event<T>>, rate: nat, channels: nat, packet: seq<T>)
    requires channels > 0
  {
    && events != [] && events[0] == Resize(rate, channels)
    && IsRun(Initial(), events) && AllDelivered(events, rate, channels, packet)
  }

  ghost predicate AllWhole<T>(events: seq<Event<T>>, rate: nat, channels: nat)
    requires channels > 0
  {
    forall e | e in events :: WholeFrames(e, channels) && (e.Resize? ==> e.rate == rate)
  }

  /** A run of whole frames from the default buffer, all of it at one size. */
  ghost predicate IsWholeRun<T>(events: seq<Event<T>>, rate: nat, channels: nat)
    requires channels > 0
  {
    && events != [] && events[0] == Resize(rate, channels)
    && IsRun(Initial(), events) && AllWhole(events, rate, channels)
  }

  lemma KeptFrom<T>(a: Audio<T>, events: seq<Event<T>>, rate: nat, channels: nat)
    requires channels > 0 && WholeDrops(rate, channels)
    requires Invariant(a) && events != [] && events[0] == Resize(rate, channels) && IsRun(a, events)
    requires Framed(Resized(a, rate, channels), channels) && AllWhole(events, rate, channels)
    ensures Framed(After(a, events), channels)
  {
    ResizeKeeps(a, rate, channels);
    CapacityOf(rate, channels);
    forall e | e in events[1..]
      ensures KeepsFrames(e, channels)
    {
      assert e in events;
    }
    FramesKept(Resized(a, rate, channels), events[1..], channels);
  }

  lemma WholeRunKept<T>(events: seq<Event<T>>, rate: nat, channels: nat)
    requires channels > 0 && WholeDrops(rate, channels) && IsWholeRun(events, rate, channels)
    ensures Framed(After(Initial(), events), channels)
  {
    InitialInvariant<T>();
    FirstFramed<T>(rate, channels);
    KeptFrom(Initial(), events, rate, channels);
  }

  lemma PlaybackIsWhole<T>(events: seq<Event<T>>, rate: nat, channels: nat, packet: seq<T>)
    requires channels > 0 && |packet| % channels == 0 && IsPlayback(events, rate, channels, packet)
    ensures IsWholeRun(events, rate, channels)
  {
  }

  lemma FirstFramed<T>(rate: nat, channels: nat)
    requires channels > 0
    ensures Framed(Resized(Initial<T>(), rate, channels), channels)
  {
    CapacityOf(rate, channels);
    assert 3 * (rate * channels) == (3 * rate) * channels;
    MultipleOf(3 * rate, channels);
    MultipleOf(0, channels);
  }

  /**
    * Every run of whole frames stays whole frames exactly when the drop is whole at every water mark; runs of equal
    * packets, of any one length up to 100 ms, are enough to tell.
    */
  lemma FramesExactly<T>(rate: nat, channels: nat, p: nat, packet: seq<T>)
    requires channels > 0 && 1 <= p && p * 10 <= rate && |packet| == p * channels
    ensures WholeDrops(rate, channels) <==>
            forall events: seq<Event<T>> | IsWholeRun(events, rate, channels) ::
              Framed(After(Initial(), events), channels)
    ensures WholeDrops(rate, channels) <==>
            forall events: seq<Event<T>> | IsPlayback(events, rate, channels, packet) ::
              Framed(After(Initial(), events), channels)
  {
    MultipleOf(p, channels);
    forall events: seq<Event<T>> | IsPlayback(events, rate, channels, packet)
      ensures IsWholeRun(events, rate, channels)
    {
      PlaybackIsWhole(events, rate, channels, packet);
    }
    if WholeDrops(rate, channels) {
      forall events: seq<Event<T>> | IsWholeRun(events, rate, channels)
        ensures Framed(After(Initial(), events), channels)
      {
        WholeRunKept(events, rate, channels);
      }
    } else {
      var m :| 0 <= m < BINS && IsMark(m) && SkipSize(3 * (rate * channels), m) % channels != 0;
      var events := FramesSplit(rate, channels, m, p, packet);
      assert IsPlayback(events, rate, channels, packet) && !Framed(After(Initial(), events), channels);
    }
  }

  /** Six channels at 44100 Hz, in packets of 10 ms: a run that drops four samples more than a number of frames. */
  lemma SurroundDropSplitsFrame<T>(packet: seq<T>) returns (events: seq<Event<T>>)
    requires |packet| == 441 * 6
    ensures IsPlayback(events, 44100, 6, packet)
    ensures After(Initial(), events).dropped == 46306 && 46306 % 6 == 4
  {
    assert SkipSize(3 * (44100 * 6), 7) == 46306;
    events := FramesSplit(44100, 6, 7, 441, packet);
  }
}
