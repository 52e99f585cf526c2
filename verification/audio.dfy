/** The audio jitter buffer as a stream with a cursor, and what every run of it keeps (src/client.rs). */
module AudioStream {
  import opened Arithmetic
  import opened Wrappers

  const BINS := 30
  const BUFFER_MS := 3000
  const WINDOW_MS := 12000

  // ---- the occupancy histogram ----

  /** A level that append_pcm recorded: samples buffered, at a rate of so many samples a second. */
  datatype Level = Level(samples: nat, perSecond: nat)

  function RawBin(level: Level): nat
    requires level.perSecond > 0
  {
    level.samples * 10 / level.perSecond
  }

  function Bin(level: Level): (b: nat)
    requires level.perSecond > 0
    ensures b < BINS
  {
    if RawBin(level) > 29 then 29 else RawBin(level)
  }

  /** Length of the leading run of empty bins. */
  function LeadingEmpty(hist: seq<nat>): (z: nat)
    ensures z <= |hist|
    ensures forall i | 0 <= i < z :: hist[i] == 0
    ensures z < |hist| ==> hist[z] != 0
  {
    if hist == [] || hist[0] != 0 then 0 else 1 + LeadingEmpty(hist[1..])
  }

  /** The lowest bin with the largest count among bins 1 and up; 0 when those are all empty. */
  ghost predicate IsBusiest(hist: seq<nat>, max: nat) {
    if max == 0 then forall j | 1 <= j < |hist| :: hist[j] == 0
    else
      && max < |hist| && hist[max] > 0
      && (forall j | 1 <= j < |hist| :: hist[j] <= hist[max])
      && (forall j | 1 <= j < max :: hist[j] < hist[max])
  }

  function Busiest(hist: seq<nat>): (max: nat)
    ensures max == 0 || max < |hist|
    ensures IsBusiest(hist, max)
  {
    if |hist| <= 1 then 0
    else
      var n := |hist| - 1;
      var max := Busiest(hist[..n]);
      if hist[n] > (if max == 0 then 0 else hist[max]) then n else max
  }

  lemma BusiestIsUnique(hist: seq<nat>, a: nat, b: nat)
    requires IsBusiest(hist, a) && IsBusiest(hist, b)
    ensures a == b
  {
    assert 0 < a ==> b > 0 && hist[a] <= hist[b];
    assert 0 < b ==> a > 0 && hist[b] <= hist[a];
  }

  // ---- how much may be dropped ----

  /** Half of cap * max / 60, rounded up to an even number. */
  function SkipSize(capacity: nat, mark: nat): nat {
    var x := capacity * mark / (30 * 4) + 1;
    x - x % 2
  }

  /** The water mark that a full histogram leads to; below 6 nothing is dropped. */
  function Mark(hist: seq<nat>): nat {
    var zero := LeadingEmpty(hist) * 2 / 3;
    var max := Busiest(hist);
    if max > zero * 4 then zero * 4 else max
  }

  function DropSize(hist: seq<nat>, capacity: nat, having: nat): nat {
    if Busiest(hist) < 6 then 0
    else
      var skip := SkipSize(capacity, Mark(hist));
      if having > skip * 3 && skip > 0 then skip else 0
  }

  /**
    * What is dropped at the end of a window, by what the bins say: zero leading bins are empty and max is the fullest
    * one. Below 600 ms nothing is; else the even part of the formula, if three times as much is buffered.
    */
  lemma DropIs(hist: seq<nat>, capacity: nat, having: nat, zero: nat, max: nat, mark: nat, skip: nat)
    requires zero <= |hist| && (forall i | 0 <= i < zero :: hist[i] == 0) && (zero < |hist| ==> hist[zero] > 0)
    requires IsBusiest(hist, max)
    requires mark <= max && mark <= zero * 2 / 3 * 4 && mark in {max, zero * 2 / 3 * 4}
    requires skip % 2 == 0 && skip <= capacity * mark / 120 + 1 <= skip + 1
    ensures DropSize(hist, capacity, having) == if max >= 6 && 0 < skip && skip * 3 < having then skip else 0
  {
    BusiestIsUnique(hist, max, Busiest(hist));
    assert Mark(hist) == mark by {
      assert LeadingEmpty(hist) == zero;
    }
    EvenPartIs(capacity * mark / 120 + 1, skip);
    assert SkipSize(capacity, mark) == skip;
  }

  lemma EvenPartIs(x: nat, even: nat)
    requires even % 2 == 0 && even <= x <= even + 1
    ensures x - x % 2 == even
  {
  }

  // ---- the buffer ----

  /** A block that the output callback read: stream positions from (inclusive) to (exclusive). */
  datatype Span = Span(from: nat, to: nat)

  /**
    * stream is everything appended since the last resize; what is buffered is its end, from cursor on.
    * levels are those recorded since the histogram was last cleared. pending is a level that has been measured
    * and not recorded yet.
    */
  datatype Audio<T> = Audio(stream: seq<T>, cursor: nat, capacity: nat, perSecond: nat, hist: seq<nat>,
                            levels: seq<Level>, tms: int, rolls: seq<int>, blocks: seq<Span>, dropped: nat,
                            pending: Option<nat>)

  datatype Event<T> = Resize(rate: nat, channels: nat) | Append(buffer: seq<T>) | Shrink(now: int) | Read(n: nat)

  function Zeros(n: nat): seq<nat> {
    seq(n, i => 0)
  }

  function Initial<T>(): Audio<T> {
    Audio([], 0, 48000 * 2 * BUFFER_MS / 1000, 48000 * 2, Zeros(BINS), [], 0, [], [], 0, None)
  }

  function Resized<T>(a: Audio<T>, rate: nat, channels: nat): Audio<T> {
    var capacity := rate * channels * BUFFER_MS / 1000;
    if capacity == a.capacity then a
    else a.(stream := [], cursor := 0, capacity := capacity, perSecond := rate * channels, blocks := [], dropped := 0)
  }

  function Max(x: int, y: int): int {
    if x < y then y else x
  }

  /** Appending overwrites the oldest samples of a full buffer. */
  function Appended<T>(a: Audio<T>, buffer: seq<T>): Audio<T>
    requires a.cursor <= |a.stream|
  {
    var stream := a.stream + buffer;
    var cursor := Max(a.cursor, |stream| - a.capacity);
    a.(stream := stream, cursor := cursor, dropped := a.dropped + (cursor - a.cursor),
       pending := Some(|stream| - cursor))
  }

  function WithLevel<T>(a: Audio<T>, level: nat): Audio<T>
    requires a.perSecond > 0 && |a.hist| == BINS
  {
    var entry := Level(level, a.perSecond);
    a.(hist := a.hist[Bin(entry) := a.hist[Bin(entry)] + 1], levels := a.levels + [entry], pending := None)
  }

  /** The end of a window: the histogram is cleared and perhaps samples are dropped. */
  function RolledOver<T>(a: Audio<T>, now: int): Audio<T>
    requires |a.hist| == BINS && a.cursor <= |a.stream|
  {
    var drop := DropSize(a.hist, a.capacity, |a.stream| - a.cursor);
    a.(tms := now, rolls := a.rolls + [now], hist := Zeros(BINS), levels := [],
       cursor := a.cursor + drop, dropped := a.dropped + drop)
  }

  function Shrunk<T>(a: Audio<T>, level: nat, now: int): Audio<T>
    requires a.perSecond > 0 && |a.hist| == BINS && a.cursor <= |a.stream|
  {
    var b := WithLevel(a, level);
    if a.tms == 0 then b.(tms := now)
    else if now < a.tms + WINDOW_MS then b
    else RolledOver(b, now)
  }

  function ReadSpan<T>(a: Audio<T>, n: nat): Span
    requires a.cursor <= |a.stream|
  {
    var m := if |a.stream| - a.cursor < n then |a.stream| - a.cursor else n;
    Span(a.cursor, a.cursor + m)
  }

  function Consumed<T>(a: Audio<T>, n: nat): Audio<T>
    requires a.cursor <= |a.stream|
  {
    var span := ReadSpan(a, n);
    a.(cursor := span.to, blocks := a.blocks + [span])
  }

  // ---- runs ----

  /** The decoder thread appends and then shrinks; it does not resize in between. Reads may come at any time. */
  predicate Enabled<T>(a: Audio<T>, e: Event<T>) {
    match e
    case Resize(rate, channels) => rate > 0 && channels > 0 && a.pending.None?
    case Append(_) => a.pending.None?
    case Shrink(now) => a.pending.Some? && now > 0
    case Read(_) => true
  }

  function Next<T>(a: Audio<T>, e: Event<T>): Audio<T>
    requires Valid(a) && Enabled(a, e)
  {
    match e
    case Resize(rate, channels) => Resized(a, rate, channels)
    case Append(buffer) => Appended(a, buffer)
    case Shrink(now) => Shrunk(a, a.pending.value, now)
    case Read(n) => Consumed(a, n)
  }

  function Count(levels: seq<Level>, b: nat): nat
    requires forall l | l in levels :: l.perSecond > 0
  {
    if levels == [] then 0
    else Count(levels[..|levels| - 1], b) + (if Bin(levels[|levels| - 1]) == b then 1 else 0)
  }

  function Played(blocks: seq<Span>): int {
    if blocks == [] then 0 else Played(blocks[..|blocks| - 1]) + (blocks[|blocks| - 1].to - blocks[|blocks| - 1].from)
  }

  /** Capacity is exactly three seconds of samples. */
  predicate Sized<T>(a: Audio<T>) {
    a.perSecond > 0 && a.capacity == 3 * a.perSecond
  }

  /** What is buffered is the end of the stream and fits. */
  predicate Buffered<T>(a: Audio<T>) {
    a.cursor <= |a.stream| && |a.stream| - a.cursor <= a.capacity
  }

  /** The histogram counts exactly the levels recorded in this window. */
  ghost predicate Recorded<T>(a: Audio<T>) {
    && |a.hist| == BINS
    && (forall l | l in a.levels :: l.perSecond > 0 && l.samples <= 3 * l.perSecond)
    && (forall b | 0 <= b < BINS :: a.hist[b] == Count(a.levels, b))
    && (a.pending.Some? ==> a.pending.value <= a.capacity)
  }

  /** The blocks read are consecutive stretches of the stream, in order and without overlap. */
  ghost predicate InOrder(blocks: seq<Span>, cursor: nat) {
    && (forall i | 0 <= i < |blocks| :: blocks[i].from <= blocks[i].to <= cursor)
    && (forall i, j | 0 <= i < j < |blocks| :: blocks[i].to <= blocks[j].from)
  }

  ghost predicate Accounted<T>(a: Audio<T>) {
    a.cursor == Played(a.blocks) + a.dropped
  }

  ghost predicate Spaced<T>(a: Audio<T>) {
    && a.tms >= 0
    && (forall i | 0 <= i < |a.rolls| :: 0 < a.rolls[i] <= a.tms)
    && (forall i, j | 0 <= i < j < |a.rolls| :: a.rolls[i] + WINDOW_MS <= a.rolls[j])
  }

  ghost predicate Invariant<T>(a: Audio<T>) {
    Sized(a) && Buffered(a) && Recorded(a) && InOrder(a.blocks, a.cursor) && Accounted(a) && Spaced(a)
  }

  predicate Valid<T>(a: Audio<T>) {
    a.perSecond > 0 && |a.hist| == BINS && a.cursor <= |a.stream|
  }

  ghost predicate IsRun<T>(a: Audio<T>, events: seq<Event<T>>)
    decreases |events|
  {
    events == [] || (Valid(a) && Enabled(a, events[0]) && IsRun(Next(a, events[0]), events[1..]))
  }

  ghost function After<T>(a: Audio<T>, events: seq<Event<T>>): Audio<T>
    requires IsRun(a, events)
    decreases |events|
  {
    if events == [] then a else After(Next(a, events[0]), events[1..])
  }

  // ---- the invariant ----

  lemma InitialInvariant<T>()
    ensures Invariant(Initial<T>())
  {
  }

  lemma ResizeKeeps<T>(a: Audio<T>, rate: nat, channels: nat)
    requires Invariant(a) && rate > 0 && channels > 0 && a.pending.None?
    ensures Invariant(Resized(a, rate, channels))
  {
    assert rate * channels > 0;
  }

  lemma AppendKeeps<T>(a: Audio<T>, buffer: seq<T>)
    requires Invariant(a) && a.pending.None?
    ensures Invariant(Appended(a, buffer))
  {
  }

  lemma ReadKeeps<T>(a: Audio<T>, n: nat)
    requires Invariant(a)
    ensures Invariant(Consumed(a, n))
  {
    var b := Consumed(a, n);
    assert b.blocks[..|a.blocks|] == a.blocks;
  }

  lemma RecordKeeps(levels: seq<Level>, hist: seq<nat>, entry: Level)
    requires |hist| == BINS && entry.perSecond > 0
    requires forall l | l in levels :: l.perSecond > 0
    requires forall b | 0 <= b < BINS :: hist[b] == Count(levels, b)
    ensures forall l | l in levels + [entry] :: l.perSecond > 0
    ensures forall b | 0 <= b < BINS ::
              hist[Bin(entry) := hist[Bin(entry)] + 1][b] == Count(levels + [entry], b)
  {
    assert (levels + [entry])[..|levels|] == levels;
  }

  lemma WithLevelKeeps<T>(a: Audio<T>)
    requires Invariant(a) && a.pending.Some?
    ensures Invariant(WithLevel(a, a.pending.value))
  {
    RecordKeeps(a.levels, a.hist, Level(a.pending.value, a.perSecond));
  }

  lemma RollOverKeeps<T>(a: Audio<T>, now: int)
    requires Invariant(a) && a.pending.None? && now >= a.tms + WINDOW_MS
    ensures Invariant(RolledOver(a, now))
  {
    var drop := DropSize(a.hist, a.capacity, |a.stream| - a.cursor);
    assert drop <= |a.stream| - a.cursor;
  }

  lemma ShrinkKeeps<T>(a: Audio<T>, now: int)
    requires Invariant(a) && a.pending.Some? && now > 0
    ensures Invariant(Shrunk(a, a.pending.value, now))
  {
    WithLevelKeeps(a);
    var b := WithLevel(a, a.pending.value);
    if a.tms != 0 && now >= a.tms + WINDOW_MS {
      RollOverKeeps(b, now);
    }
  }

  lemma {:induction false} RunKeeps<T>(a: Audio<T>, events: seq<Event<T>>)
    requires Invariant(a) && IsRun(a, events)
    ensures Invariant(After(a, events))
    decreases |events|
  {
    if events != [] {
      match events[0] {
        case Resize(rate, channels) => ResizeKeeps(a, rate, channels);
        case Append(buffer) => AppendKeeps(a, buffer);
        case Shrink(now) => ShrinkKeeps(a, now);
        case Read(n) => ReadKeeps(a, n);
      }
      RunKeeps(Next(a, events[0]), events[1..]);
    }
  }

  /**
    * The capacity is three seconds, the buffer is the end of the stream, the blocks read are consecutive and
    * disjoint, everything appended has been played, dropped or is buffered, and windows last at least twelve
    * seconds.
    */
  ghost predicate Sound<T>(a: Audio<T>) {
    && a.capacity == 3 * a.perSecond
    && a.cursor <= |a.stream| <= a.cursor + a.capacity
    && |a.stream| == Played(a.blocks) + a.dropped + (|a.stream| - a.cursor)
    && (forall i, j | 0 <= i < j < |a.blocks| ::
          a.blocks[i].from <= a.blocks[i].to <= a.blocks[j].from <= a.blocks[j].to <= a.cursor)
    && (forall i, j | 0 <= i < j < |a.rolls| :: a.rolls[i] + WINDOW_MS <= a.rolls[j])
  }

  lemma InvariantMeans<T>(a: Audio<T>)
    requires Invariant(a)
    ensures Sound(a)
  {
  }

  /** Every reachable state is sound and keeps the invariant. */
  lemma EveryRun<T>(events: seq<Event<T>>)
    requires IsRun(Initial(), events)
    ensures Invariant(After(Initial(), events)) && Sound(After(Initial(), events))
  {
    InitialInvariant<T>();
    RunKeeps(Initial(), events);
    InvariantMeans(After(Initial(), events));
  }

  lemma {:induction false} RunAppend<T>(a: Audio<T>, events: seq<Event<T>>, e: Event<T>)
    requires IsRun(a, events + [e])
    ensures IsRun(a, events) && var b := After(a, events);
            && Valid(b) && Enabled(b, e)
            && After(a, events + [e]) == Next(b, e)
    decreases |events|
  {
    if events == [] {
      assert (events + [e])[1..] == [];
    } else {
      assert (events + [e])[1..] == events[1..] + [e];
      RunAppend(Next(a, events[0]), events[1..], e);
    }
  }

  /** The last event of a run starts from a state that keeps the invariant. */
  lemma LastStep<T>(start: Audio<T>, events: seq<Event<T>>, e: Event<T>) returns (a: Audio<T>)
    requires Invariant(start) && IsRun(start, events + [e])
    ensures IsRun(start, events) && a == After(start, events)
    ensures Buffered(a) && Sized(a) && Valid(a) && Enabled(a, e) && After(start, events + [e]) == Next(a, e)
  {
    RunAppend(start, events, e);
    RunKeeps(start, events);
    a := After(start, events);
  }

  /**
    * After every run: a read takes what is buffered, up to its length, and leaves samples behind only when its
    * block is full.
    */
  lemma ReadTakesAll<T>(start: Audio<T>, events: seq<Event<T>>, n: nat)
    requires Invariant(start) && IsRun(start, events + [Read(n)])
    ensures IsRun(start, events)
    ensures var a, b := After(start, events), After(start, events + [Read(n)]);
            && b.stream == a.stream && b.dropped == a.dropped
            && b.blocks == a.blocks + [Span(a.cursor, b.cursor)]
            && 0 <= b.cursor - a.cursor <= n
            && (b.cursor < |b.stream| ==> b.cursor - a.cursor == n)
  {
    var a := LastStep(start, events, Read(n));
  }

  /** Appending plays nothing, keeps the order, and overwrites samples only as far as the buffer is full. */
  lemma AppendKeepsLatest<T>(start: Audio<T>, events: seq<Event<T>>, buffer: seq<T>)
    requires Invariant(start) && IsRun(start, events + [Append(buffer)])
    ensures IsRun(start, events)
    ensures var a, b := After(start, events), After(start, events + [Append(buffer)]);
            && b.stream == a.stream + buffer && b.blocks == a.blocks
            && b.dropped - a.dropped == b.cursor - a.cursor >= 0
            && (b.cursor > a.cursor ==> |b.stream| - b.cursor == b.capacity)
            && b.pending == Some(|b.stream| - b.cursor)
  {
    var a := LastStep(start, events, Append(buffer));
  }

  /** Looking for an excess plays nothing, and drops nothing unless it ends a window of twelve seconds. */
  lemma ShrinkEndsWindow<T>(start: Audio<T>, events: seq<Event<T>>, now: int)
    requires Invariant(start) && IsRun(start, events + [Shrink(now)])
    ensures IsRun(start, events)
    ensures var a, b := After(start, events), After(start, events + [Shrink(now)]);
            && b.stream == a.stream && b.blocks == a.blocks && b.pending == None && a.pending.Some?
            && b.dropped - a.dropped == b.cursor - a.cursor >= 0
            && (if a.tms != 0 && now >= a.tms + WINDOW_MS then
                  b.tms == now && b.rolls == a.rolls + [now] && b.levels == []
                else
                  && b.tms == (if a.tms == 0 then now else a.tms) && b.rolls == a.rolls && b.cursor == a.cursor
                  && b.levels == a.levels + [Level(a.pending.value, a.perSecond)])
  {
    var a := LastStep(start, events, Shrink(now));
  }

  lemma QuotientAtMost(q: nat, d: nat, r: nat, n: nat)
    requires r < d && q * d + r <= n * d
    ensures q <= n && (q == n <==> q * d + r == n * d)
  {
    if q > n {
      ScaledGap(n, q, d);
    } else if q < n {
      ScaledGap(q, n, d);
    }
  }

  /**
    * A level is at most three seconds: its bin is at most 30, and 30 only for a full buffer, which is counted in
    * bin 29. Every other level is counted in the tenth of a second that it reaches.
    */
  lemma BinOfLevel(level: Level)
    requires level.perSecond > 0 && level.samples <= 3 * level.perSecond
    ensures RawBin(level) <= 30
    ensures RawBin(level) == 30 <==> level.samples == 3 * level.perSecond
    ensures level.samples < 3 * level.perSecond ==>
              Bin(level) * level.perSecond <= 10 * level.samples < (Bin(level) + 1) * level.perSecond
    ensures level.samples == 3 * level.perSecond ==> Bin(level) == 29
  {
    var q, r := RawBin(level), level.samples * 10 % level.perSecond;
    assert q * level.perSecond + r == level.samples * 10;
    QuotientAtMost(q, level.perSecond, r, 30);
  }

  // ---- the safe drop ----

  lemma {:induction false} CountPositive(levels: seq<Level>, l: Level)
    requires (forall k | k in levels :: k.perSecond > 0) && l in levels
    ensures Count(levels, Bin(l)) > 0
  {
    var n := |levels| - 1;
    if levels[n] != l {
      assert l in levels[..n];
      CountPositive(levels[..n], l);
    }
  }

  /** Leading empty bins bound every level from below. */
  lemma LevelAboveZero(hist: seq<nat>, levels: seq<Level>, l: Level)
    requires |hist| == BINS && (forall k | k in levels :: k.perSecond > 0) && l in levels
    requires forall b | 0 <= b < BINS :: hist[b] == Count(levels, b)
    ensures LeadingEmpty(hist) * l.perSecond <= l.samples * 10
  {
    CountPositive(levels, l);
    assert LeadingEmpty(hist) <= Bin(l);
    DivBelow(l.samples * 10, l.perSecond, LeadingEmpty(hist));
  }

  lemma DivBelow(x: nat, d: nat, q: nat)
    requires d > 0 && q <= x / d
    ensures q * d <= x
  {
    assert x == x / d * d + x % d;
    assert q * d <= x / d * d;
  }

  lemma SkipBound(perSecond: nat, zero: nat, mark: nat)
    requires mark <= zero * 2 / 3 * 4
    ensures var s := SkipSize(3 * perSecond, mark);
            15 * (s - 1) <= zero * perSecond
  {
    var third := zero * 2 / 3;
    assert perSecond * mark <= perSecond * (third * 4);
    assert perSecond * (third * 4) == (perSecond * third) * 4;
    assert 3 * (perSecond * third) <= perSecond * (zero * 2) by {
      assert third * 3 <= zero * 2;
      assert perSecond * (third * 3) <= perSecond * (zero * 2);
    }
    assert 3 * perSecond * mark == 3 * (perSecond * mark);
    assert perSecond * (zero * 2) == 2 * (zero * perSecond);
  }

  lemma MarkBound(hist: seq<nat>)
    ensures Mark(hist) <= LeadingEmpty(hist) * 2 / 3 * 4
  {
  }

  /** Cross-multiplying the two bounds on the leading empty bins. */
  lemma ScaledBound(drop: nat, zero: nat, perSecond: nat, level: Level)
    requires drop > 0
    requires 15 * (drop - 1) <= zero * perSecond
    requires zero * level.perSecond <= level.samples * 10
    ensures 3 * (drop - 1) * level.perSecond <= 2 * level.samples * perSecond
  {
    var p, q, n := level.perSecond, perSecond, level.samples;
    assert 15 * (drop - 1) * p <= zero * q * p;
    assert zero * q * p == zero * p * q;
    assert zero * p * q <= n * 10 * q;
    assert 15 * (drop - 1) * p == 5 * (3 * (drop - 1) * p);
    assert n * 10 * q == 5 * (2 * n * q);
  }

  lemma SafeRollOver<T>(a: Audio<T>, now: int, level: Level)
    requires Invariant(a) && level in a.levels
    ensures var having := |a.stream| - a.cursor;
            var drop := RolledOver(a, now).cursor - a.cursor;
            && 0 <= drop
            && (drop > 0 ==> 3 * (drop - 1) * level.perSecond <= 2 * level.samples * a.perSecond)
            && (drop > 0 ==> 3 * (having - drop) > 2 * having)
  {
    var drop := DropSize(a.hist, a.capacity, |a.stream| - a.cursor);
    var zero := LeadingEmpty(a.hist);
    if drop > 0 {
      LevelAboveZero(a.hist, a.levels, level);
      MarkBound(a.hist);
      SkipBound(a.perSecond, zero, Mark(a.hist));
      ScaledBound(drop, zero, a.perSecond, level);
    }
  }

  /** Whatever shrinking drops is safe for every level of its window, measured in seconds. */
  lemma SafeDrop<T>(a: Audio<T>, now: int, level: Level)
    requires Invariant(a) && a.pending.Some? && now > 0
    requires level in a.levels + [Level(a.pending.value, a.perSecond)]
    ensures var having := |a.stream| - a.cursor;
            var drop := Shrunk(a, a.pending.value, now).cursor - a.cursor;
            && 0 <= drop
            && (drop > 0 ==> 3 * (drop - 1) * level.perSecond <= 2 * level.samples * a.perSecond)
            && (drop > 0 ==> 3 * (having - drop) > 2 * having)
  {
    WithLevelKeeps(a);
    SafeRollOver(WithLevel(a, a.pending.value), now, level);
  }

  /** Without a resize in the window the bound is on the samples themselves. */
  lemma SafeDropSamples<T>(a: Audio<T>, now: int, level: Level)
    requires Invariant(a) && a.pending.Some? && now > 0
    requires level in a.levels + [Level(a.pending.value, a.perSecond)] && level.perSecond == a.perSecond
    ensures var drop := Shrunk(a, a.pending.value, now).cursor - a.cursor;
            drop > 0 ==> 3 * (drop - 1) <= 2 * level.samples
  {
    SafeDrop(a, now, level);
    var drop := Shrunk(a, a.pending.value, now).cursor - a.cursor;
    if drop > 0 {
      CancelFactor(3 * (drop - 1), 2 * level.samples, a.perSecond);
    }
  }
}
