/** The audio jitter buffer itself: a ring of samples and a histogram that is scanned in place. */
module AudioBuffers {
  import opened Wrappers
  import opened AudioStream

  /** The last n elements; all of them when there are fewer. */
  function LastN<T>(s: seq<T>, n: nat): (r: seq<T>)
    ensures |r| == (if |s| <= n then |s| else n) && r == s[|s| - |r|..]
  {
    if |s| <= n then s else s[|s| - n..]
  }

  function Slot(head: nat, i: nat, size: nat): nat {
    if head + i < size then head + i else head + i - size
  }

  /** A bounded ring; the crate that provides it in the program is taken at its documented behaviour. */
  class RingBuffer<T(0)> {
    var data: array<T>
    var head: nat
    var len: nat

    ghost predicate Valid()
      reads this
    {
      0 < data.Length && head < data.Length && len <= data.Length
    }

    function At(i: nat): T
      requires Valid() && i < len
      reads this, data
    {
      data[Slot(head, i, data.Length)]
    }

    ghost predicate Holds(s: seq<T>)
      requires Valid()
      reads this, data
    {
      |s| == len && forall i | 0 <= i < len :: s[i] == At(i)
    }

    constructor (capacity: nat)
      requires capacity > 0
      ensures Valid() && fresh(data) && data.Length == capacity && len == 0
    {
      data := new T[capacity];
      head := 0;
      len := 0;
    }

    /** Drops the oldest samples. */
    method Skip(n: nat, ghost s: seq<T>)
      requires Valid() && Holds(s) && n <= len
      modifies this`head, this`len
      ensures Valid() && data == old(data) && Holds(s[n..])
    {
      head := Slot(head, n, data.Length);
      len := len - n;
    }

    method Push(x: T, ghost s: seq<T>)
      requires Valid() && Holds(s) && len < data.Length
      modifies this`len, data
      ensures Valid() && data == old(data) && Holds(s + [x])
    {
      data[Slot(head, len, data.Length)] := x;
      len := len + 1;
    }

    /** Appends, overwriting the oldest samples when there is no room. */
    method PushSliceOverwrite(buffer: seq<T>, ghost s: seq<T>)
      requires Valid() && Holds(s)
      modifies this`head, this`len, data
      ensures Valid() && data == old(data) && Holds(LastN(s + buffer, data.Length))
    {
      var cap := data.Length;
      var vacant := cap - len;
      var from := 0;
      ghost var kept := s;
      if |buffer| > vacant {
        var n := if |buffer| - vacant < len then |buffer| - vacant else len;
        Skip(n, s);
        kept := s[n..];
        from := if |buffer| > cap then |buffer| - cap else 0;
      }
      assert |kept| + |buffer| - from <= cap;
      for i := from to |buffer|
        invariant Valid() && data == old(data) && len == |kept| + (i - from)
        invariant Holds(kept + buffer[from..i])
      {
        assert (kept + buffer[from..i]) + [buffer[i]] == kept + buffer[from..i + 1];
        Push(buffer[i], kept + buffer[from..i]);
      }
      assert buffer[from..|buffer|] == buffer[from..];
      assert kept + buffer[from..] == LastN(s + buffer, cap);
    }

    /** Makes room for the buffer and appends it; a buffer longer than the ring leaves only its end. */
    method AppendKeepingLatest(buffer: seq<T>, ghost s: seq<T>) returns (level: nat)
      requires Valid() && Holds(s)
      modifies this`head, this`len, data
      ensures Valid() && data == old(data)
      ensures Holds(LastN(s + buffer, data.Length)) && level == len
    {
      var cap := data.Length;
      if |buffer| > cap {
        PushSliceOverwrite(buffer, s);
        return cap;
      }
      var having := len + |buffer|;
      if having > cap {
        Skip(having - cap, s);
        PushSliceOverwrite(buffer, s[having - cap..]);
        assert LastN(s[having - cap..] + buffer, cap) == LastN(s + buffer, cap);
      } else {
        PushSliceOverwrite(buffer, s);
      }
      level := len;
    }

    /** Takes the oldest n samples out. */
    method PopSlice(n: nat, ghost s: seq<T>) returns (block: seq<T>)
      requires Valid() && Holds(s) && n <= len
      modifies this`head, this`len
      ensures Valid() && data == old(data)
      ensures block == s[..n] && Holds(s[n..])
    {
      block := [];
      for i := 0 to n
        invariant block == s[..i]
      {
        block := block + [At(i)];
      }
      Skip(n, s);
    }
  }

  // ---- the histogram pass ----

  /** The state of the pass before bin i is looked at. */
  ghost predicate Scanned(before: seq<nat>, hist: seq<nat>, i: nat, zero: nat, max: nat)
    requires |before| == |hist| && i <= |hist|
  {
    && zero <= i && (forall j | 0 <= j < zero :: before[j] == 0) && (zero < i ==> before[zero] != 0)
    && (max == 0 || max < i) && IsBusiest(before[..i], max)
    && (forall j | i <= j < |hist| :: hist[j] == before[j])
    && (forall j | 0 <= j < i && j != max :: hist[j] == 0)
    && (max > 0 ==> hist[max] == before[max])
    && (max == 0 && i > 0 ==> hist[0] == 0)
  }

  lemma ScanEnds(before: seq<nat>, hist: seq<nat>, zero: nat, max: nat)
    requires |before| == |hist| && Scanned(before, hist, |hist|, zero, max)
    ensures zero == LeadingEmpty(before) && max == Busiest(before)
  {
    assert before[..|hist|] == before;
    BusiestIsUnique(before, max, Busiest(before));
  }

  lemma ScanMax(before: seq<nat>, i: nat, max: nat)
    requires i < |before| && (max == 0 || max < i) && IsBusiest(before[..i], max)
    ensures var best := if max == 0 then 0 else before[max];
            IsBusiest(before[..i + 1], if i > 0 && before[i] > best then i else max)
  {
    assert forall j | 0 <= j < i :: before[..i][j] == before[..i + 1][j];
  }

  /** One pass finds both water marks and leaves every bin empty. */
  method ScanHistogram(hist: array<nat>) returns (zero: nat, max: nat)
    requires hist.Length == BINS
    modifies hist
    ensures zero == LeadingEmpty(old(hist[..])) && max == Busiest(old(hist[..]))
    ensures hist[..] == Zeros(BINS)
  {
    ghost var before := hist[..];
    zero, max := 0, 0;
    for i := 0 to BINS
      invariant max < BINS && Scanned(before, hist[..], i, zero, max)
    {
      ScanMax(before, i, max);
      if hist[i] == 0 && zero == i {
        zero := zero + 1;
      }
      if hist[i] > hist[max] {
        hist[max] := 0;
        max := i;
      } else {
        hist[i] := 0;
      }
    }
    ScanEnds(before, hist[..], zero, max);
    hist[max] := 0;
  }

  // ---- the buffer ----

  lemma AppendedEnd<T>(stream: seq<T>, cursor: nat, buffer: seq<T>, cap: nat) returns (grown: seq<T>, from: nat)
    requires cursor <= |stream| && |stream| - cursor <= cap
    ensures grown == stream + buffer && from == Max(cursor, |grown| - cap) <= |grown|
    ensures grown[from..] == LastN(stream[cursor..] + buffer, cap)
  {
    grown := stream + buffer;
    from := Max(cursor, |grown| - cap);
  }

  class AudioBuffer<T(0)> {
    var ring: RingBuffer<T>
    var perSecond: nat
    var hist: array<nat>
    var tms: int

    // The stream, the records and the logs that explain the state.
    ghost var stream: seq<T>
    ghost var cursor: nat
    ghost var levels: seq<Level>
    ghost var rolls: seq<int>
    ghost var blocks: seq<Span>
    ghost var dropped: nat
    ghost var pending: Option<nat>

    ghost predicate Valid()
      reads this, ring, ring.data, hist
    {
      && ring.Valid() && perSecond > 0 && hist.Length == BINS
      && hist as object != ring.data as object
      && cursor <= |stream| && ring.Holds(stream[cursor..])
    }

    ghost function View(): Audio<T>
      reads this, ring, ring.data, hist
    {
      Audio(stream, cursor, ring.data.Length, perSecond, hist[..], levels, tms, rolls, blocks, dropped, pending)
    }

    ghost function Footprint(): set<object>
      reads this, ring
    {
      {this, ring, ring.data, hist}
    }

    constructor ()
      ensures Valid() && View() == Initial() && fresh(Footprint())
      ensures ring.data.Length == 288_000 && perSecond == 96_000 && stream == []
    {
      ring := new RingBuffer(48000 * 2 * BUFFER_MS / 1000);
      perSecond := 48000 * 2;
      hist := new nat[BINS](i => 0);
      tms := 0;
      stream, cursor, levels, rolls, blocks, dropped, pending := [], 0, [], [], [], 0, None;
      new;
      assert hist[..] == Zeros(BINS);
    }

    /** A different capacity gets a new, empty ring. */
    method Resize(sampleRate: nat, channels: nat)
      requires Valid() && sampleRate > 0 && channels > 0
      modifies this
      ensures Valid() && View() == Resized(old(View()), sampleRate, channels)
      ensures ring.data.Length == 3 * (sampleRate * channels)
      ensures if ring.data.Length == old(ring.data.Length) then ring == old(ring) && perSecond == old(perSecond)
              else ring.len == 0 && stream == [] && perSecond == sampleRate * channels
      ensures fresh(Footprint() - old(Footprint()))
    {
      var capacity := sampleRate * channels * BUFFER_MS / 1000;
      var oldCapacity := ring.data.Length;
      if capacity != oldCapacity {
        assert sampleRate * channels > 0;
        ring := new RingBuffer(capacity);
        perSecond := sampleRate * channels;
        stream, cursor, blocks, dropped := [], 0, [], 0;
      }
    }

    /** Appends and returns how much is buffered afterwards. */
    method AppendPcm2(buffer: seq<T>) returns (level: nat)
      requires Valid() && |stream| - cursor <= ring.data.Length
      modifies this`stream, this`cursor, this`dropped, this`pending, ring, ring.data
      ensures Valid() && View() == Appended(old(View()), buffer) && pending == Some(level)
      ensures stream[cursor..] == LastN(old(stream[cursor..]) + buffer, ring.data.Length)
      ensures level == |stream| - cursor
      ensures Footprint() == old(Footprint())
    {
      var cap := ring.data.Length;
      ghost var s := stream[cursor..];
      level := ring.AppendKeepingLatest(buffer, s);
      ghost var grown, from := AppendedEnd(stream, cursor, buffer, cap);
      stream, cursor, dropped, pending := grown, from, dropped + (from - cursor), Some(level);
    }

    /** Records a level and, at the end of a window, drops what has always been in excess. */
    method TryShrink(having0: nat, now: int)
      requires Valid()
      modifies this`tms, this`cursor, this`levels, this`rolls, this`dropped, this`pending, ring, hist
      ensures Valid() && View() == Shrunk(old(View()), having0, now)
      ensures Footprint() == old(Footprint())
    {
      Record(having0);
      if tms == 0 {
        tms := now;
        return;
      } else if now < tms + WINDOW_MS {
        return;
      }
      RollOver(now);
    }

    /** Counts a level in its bin. */
    method Record(having0: nat)
      requires Valid()
      modifies this`levels, this`pending, hist
      ensures Valid() && View() == WithLevel(old(View()), having0)
      ensures Footprint() == old(Footprint())
    {
      var i := having0 * 10 / perSecond;
      if i > 29 {
        i := 29;
      }
      hist[i] := hist[i] + 1;
      levels, pending := levels + [Level(having0, perSecond)], None;
    }

    /** Ends a statistics window. */
    method RollOver(now: int)
      requires Valid()
      modifies this`tms, this`cursor, this`levels, this`rolls, this`dropped, ring, hist
      ensures Valid() && View() == RolledOver(old(View()), now)
      ensures Footprint() == old(Footprint())
    {
      ghost var full := hist[..];
      var drops, max := WaterMark();
      tms := now;
      rolls, levels := rolls + [now], [];
      if drops {
        Drop(full, max);
      }
    }

    /** Clears the histogram; below 6 nothing is to be dropped. */
    method WaterMark() returns (drops: bool, max: nat)
      requires Valid()
      modifies hist
      ensures Valid() && View() == old(View()).(hist := Zeros(BINS))
      ensures drops == (Busiest(old(hist[..])) >= 6) && (drops ==> max == Mark(old(hist[..])))
    {
      var zero;
      zero, max := ScanHistogram(hist);
      zero := zero * 2 / 3;
      if max < 6 {
        return false, max;
      } else if max > zero * 4 {
        max := zero * 4;
      }
      drops := true;
    }

    method Drop(ghost full: seq<nat>, max: nat)
      requires Valid() && Busiest(full) >= 6 && max == Mark(full)
      modifies this`cursor, this`dropped, ring
      ensures Valid() && Footprint() == old(Footprint())
      ensures var drop := DropSize(full, ring.data.Length, |stream| - old(cursor));
              View() == old(View()).(cursor := old(cursor) + drop, dropped := old(dropped) + drop)
    {
      var cap := ring.data.Length;
      var having := ring.len;
      var skip := cap * max / (30 * 4) + 1;
      skip := skip - skip % 2;
      assert skip == SkipSize(cap, Mark(full)) && having == |stream| - cursor;
      if having > skip * 3 && skip > 0 {
        Advance(skip);
      }
    }

    /** The oldest n samples go. */
    method Advance(n: nat)
      requires Valid() && n <= ring.len
      modifies this`cursor, this`dropped, ring
      ensures Valid() && Footprint() == old(Footprint())
      ensures View() == old(View()).(cursor := old(cursor) + n, dropped := old(dropped) + n)
    {
      ring.Skip(n, stream[cursor..]);
      assert stream[cursor..][n..] == stream[cursor + n..];
      cursor, dropped := cursor + n, dropped + n;
    }

    /** Appends and then looks whether something may be dropped. */
    method AppendPcm(buffer: seq<T>, now: int)
      requires Valid() && |stream| - cursor <= ring.data.Length
      modifies this, ring, ring.data, hist
      ensures Valid()
      ensures var a := Appended(old(View()), buffer); View() == Shrunk(a, a.pending.value, now)
    {
      var having := AppendPcm2(buffer);
      TryShrink(having, now);
    }

    /** Fills a block of the sound device: as many of the buffered samples as fit, then silence. */
    method Play(n0: nat, silence: T) returns (out: seq<T>)
      requires Valid()
      modifies this`cursor, this`blocks, ring
      ensures Valid() && View() == Consumed(old(View()), n0)
      ensures var s := old(stream[cursor..]);
              var k := if n0 < |s| then n0 else |s|;
              && out == s[..k] + seq(n0 - k, _ => silence)
              && stream[cursor..] == s[k..]
    {
      var n := n0;
      var having := ring.len;
      if having < n {
        n := having;
      }
      var block := ring.PopSlice(n, stream[cursor..]);
      out := block + seq(n0 - n, _ => silence);
      blocks := blocks + [Span(cursor, cursor + n)];
      cursor := cursor + n;
    }
  }
}
