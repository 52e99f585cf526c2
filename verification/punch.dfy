/** The back-off loop of UDP hole punching (src/common.rs). Times are in nanoseconds. */
module UdpPunch {
  import opened Wrappers

  const MS := 1_000_000
  const MAX_INTERVAL := 200 // milliseconds
  const MAX_TIME := 20_000 * MS

  /**
    * A timer event reads the clock for the time limit, again for the interval, and a third time once a packet has
    * been sent. A packet of n octets, or an error, may arrive instead.
    */
  datatype Event = Timer(limit: nat, measured: nat, sent: nat) | Packet(n: nat) | Broken

  datatype Outcome = TimedOut | Failed | Opened | OpenedWith(n: nat)

  datatype Punch = Punch(interval: nat, packets: nat, lastSend: nat, outcome: Option<Outcome>)

  /** One and a half times the interval, rounded down, but no more than the maximum. */
  function Longer(interval: nat): nat {
    if interval * 3 / 2 < MAX_INTERVAL then interval * 3 / 2 else MAX_INTERVAL
  }

  /** The first packet has been sent at time 0; the time limit counts from start. */
  function Begin(): Punch {
    Punch(20, 1, 0, None)
  }

  function Step(listen: bool, start: nat, p: Punch, e: Event): Punch {
    if p.outcome.Some? then p
    else
      match e
      case Timer(limit, measured, sent) =>
        if limit - start > MAX_TIME then p.(outcome := Some(TimedOut))
        else if measured - p.lastSend >= p.interval * MS then
          Punch(Longer(p.interval), p.packets + 1, sent, None)
        else p
      case Packet(n) =>
        if !listen then p.(outcome := Some(Opened))
        else if n == 0 then p
        else p.(outcome := Some(OpenedWith(n)))
      case Broken => p.(outcome := Some(Failed))
  }

  function Run(listen: bool, start: nat, events: seq<Event>): Punch {
    if events == [] then Begin()
    else Step(listen, start, Run(listen, start, events[..|events| - 1]), events[|events| - 1])
  }

  /** The events that end the loop: a timer past the limit, an error, and a packet unless it is empty and awaited. */
  predicate Decides(listen: bool, start: nat, e: Event) {
    || e.Broken?
    || (e.Timer? && e.limit > start + MAX_TIME)
    || (e.Packet? && (listen ==> e.n > 0))
  }

  predicate NothingDecides(listen: bool, start: nat, events: seq<Event>) {
    forall i :: 0 <= i < |events| ==> !Decides(listen, start, events[i])
  }

  predicate IsFirst(listen: bool, start: nat, events: seq<Event>, i: nat) {
    i < |events| && Decides(listen, start, events[i]) && NothingDecides(listen, start, events[..i])
  }

  method PunchUdp(listen: bool, start: nat, events: seq<Event>) returns (outcome: Option<Outcome>, packets: nat)
    ensures outcome == Run(listen, start, events).outcome && packets == Run(listen, start, events).packets
    ensures outcome.None? <==> NothingDecides(listen, start, events)
    ensures forall i: nat :: IsFirst(listen, start, events, i) ==>
              match events[i]
              case Timer(_, _, _) => outcome == Some(TimedOut)
              case Packet(n) => outcome == Some(if listen then OpenedWith(n) else Opened)
              case Broken => outcome == Some(Failed)
  {
    Undecided(listen, start, events);
    forall i: nat | IsFirst(listen, start, events, i)
      ensures match events[i]
              case Timer(_, _, _) => Run(listen, start, events).outcome == Some(TimedOut)
              case Packet(n) => Run(listen, start, events).outcome == Some(if listen then OpenedWith(n) else Opened)
              case Broken => Run(listen, start, events).outcome == Some(Failed)
    {
      FirstDecides(listen, start, events, i);
    }
    var retryInterval: nat := 20;
    packets := 1;
    var lastSendTime: nat := 0;
    for i := 0 to |events|
      invariant Run(listen, start, events[..i]) == Punch(retryInterval, packets, lastSendTime, None)
    {
      assert events[..i + 1][..i] == events[..i];
      Decided(listen, start, events, i + 1);
      match events[i]
      case Timer(limit, measured, sent) =>
        if limit - start > MAX_TIME {
          return Some(TimedOut), packets;
        }
        if measured - lastSendTime >= retryInterval * MS {
          packets := packets + 1;
          retryInterval := if retryInterval * 3 / 2 < MAX_INTERVAL then retryInterval * 3 / 2 else MAX_INTERVAL;
          lastSendTime := sent;
        }
      case Broken => return Some(Failed), packets;
      case Packet(n) =>
        if listen {
          if n == 0 {
            continue;
          }
          return Some(OpenedWith(n)), packets;
        }
        return Some(Opened), packets;
    }
    assert events[..|events|] == events;
    outcome := None;
  }

  /** Once there is an outcome, later events change nothing. */
  lemma {:induction false} Decided(listen: bool, start: nat, events: seq<Event>, n: nat)
    requires n <= |events|
    ensures Run(listen, start, events[..n]).outcome.Some? ==>
              Run(listen, start, events) == Run(listen, start, events[..n])
    decreases |events| - n
  {
    if n < |events| {
      assert events[..n + 1][..n] == events[..n];
      Decided(listen, start, events, n + 1);
    } else {
      assert events[..n] == events;
    }
  }

  /** The loop goes on just as long as nothing decides. */
  lemma {:induction false} Undecided(listen: bool, start: nat, events: seq<Event>)
    ensures Run(listen, start, events).outcome.None? <==> NothingDecides(listen, start, events)
  {
    if events != [] {
      Undecided(listen, start, events[..|events| - 1]);
    }
  }

  /** The first event that decides gives the outcome, whatever follows it. */
  lemma FirstDecides(listen: bool, start: nat, events: seq<Event>, i: nat)
    requires IsFirst(listen, start, events, i)
    ensures Run(listen, start, events).packets == Run(listen, start, events[..i]).packets
    ensures match events[i]
            case Timer(_, _, _) => Run(listen, start, events).outcome == Some(TimedOut)
            case Packet(n) => Run(listen, start, events).outcome == Some(if listen then OpenedWith(n) else Opened)
            case Broken => Run(listen, start, events).outcome == Some(Failed)
  {
    Undecided(listen, start, events[..i]);
    RunAppend(listen, start, events[..i], events[i]);
    assert events[..i + 1] == events[..i] + [events[i]];
    Decided(listen, start, events, i + 1);
  }

  /** While a packet is awaited, an empty one changes nothing, wherever it comes. */
  lemma {:induction false} EmptyPacketIsIgnored(start: nat, before: seq<Event>, after: seq<Event>)
    ensures Run(true, start, before + [Packet(0)] + after) == Run(true, start, before + after)
  {
    if after == [] {
      assert before + [Packet(0)] + after == before + [Packet(0)] && before + after == before;
      RunAppend(true, start, before, Packet(0));
    } else {
      var n := |after| - 1;
      EmptyPacketIsIgnored(start, before, after[..n]);
      assert before + [Packet(0)] + after == (before + [Packet(0)] + after[..n]) + [after[n]];
      assert before + after == (before + after[..n]) + [after[n]];
      RunAppend(true, start, before + [Packet(0)] + after[..n], after[n]);
      RunAppend(true, start, before + after[..n], after[n]);
    }
  }

  // ---- the clock ----

  lemma RunAppend(listen: bool, start: nat, events: seq<Event>, e: Event)
    ensures Run(listen, start, events + [e]) == Step(listen, start, Run(listen, start, events), e)
  {
    assert (events + [e])[..|events|] == events;
  }

  /**
    * The clock's last reading: the start of the time limit at first, then that of the last timer, which reads it a
    * third time when it sends a packet.
    */
  function LastReading(listen: bool, start: nat, events: seq<Event>): nat {
    if events == [] then start
    else
      var n := |events| - 1;
      match events[n]
      case Timer(limit, measured, sent) =>
        if Run(listen, start, events).packets > Run(listen, start, events[..n]).packets then sent else measured
      case _ => LastReading(listen, start, events[..n])
  }

  /**
    * What the loop's sleep makes of a schedule: every pass waits for a new sleep of the retry interval, so a timer
    * reads the clock at least that much later than it was last read; and readings do not go back.
    */
  ghost predicate Slept(listen: bool, start: nat, events: seq<Event>) {
    events == [] ||
    (var n := |events| - 1;
     && Slept(listen, start, events[..n])
     && match events[n]
        case Timer(limit, measured, sent) =>
          && LastReading(listen, start, events[..n]) + Run(listen, start, events[..n]).interval * MS <= limit
          && limit <= measured <= sent
        case _ => true)
  }

  /**
    * Under every schedule, whatever the sleep allows: only a timer within the limit sends a packet, and just when the
    * retry interval has passed since the last one.
    */
  lemma PacketsAreApart(listen: bool, start: nat, events: seq<Event>, e: Event)
    ensures var p, q := Run(listen, start, events), Run(listen, start, events + [e]);
            && p.packets <= q.packets <= p.packets + 1
            && (q.packets > p.packets <==>
                  && p.outcome.None? && e.Timer? && e.limit <= start + MAX_TIME
                  && e.measured >= p.lastSend + p.interval * MS)
            && q.lastSend == if q.packets > p.packets then e.sent else p.lastSend
  {
    RunAppend(listen, start, events, e);
  }

  // ---- the bound ----

  /** The interval that follows the p-th packet, in milliseconds. */
  function IntervalAfter(p: nat): (i: nat)
    requires p >= 1
    ensures 20 <= i <= MAX_INTERVAL
  {
    if p == 1 then 20 else Longer(IntervalAfter(p - 1))
  }

  /** The earliest time of the p-th packet, in milliseconds. */
  function Earliest(p: nat): nat
    requires p >= 1
  {
    if p == 1 then 0 else Earliest(p - 1) + IntervalAfter(p - 1)
  }

  lemma FirstIntervals()
    ensures Earliest(7) == 412 && IntervalAfter(7) == 200
  {
    assert IntervalAfter(2) == 30 && IntervalAfter(3) == 45;
    assert IntervalAfter(4) == 67 && IntervalAfter(5) == 100;
    assert IntervalAfter(6) == 150;
    assert Earliest(3) == 50;
    assert Earliest(5) == 162;
  }

  lemma {:induction false} LaterIntervals(p: nat)
    requires p >= 7
    ensures IntervalAfter(p) == 200 && Earliest(p) == 412 + 200 * (p - 7)
  {
    if p == 7 {
      FirstIntervals();
    } else {
      LaterIntervals(p - 1);
    }
  }

  /** Intervals only grow. */
  lemma {:induction false} IntervalsGrow(p: nat, q: nat)
    requires 1 <= p <= q
    ensures IntervalAfter(p) <= IntervalAfter(q)
  {
    if p < q {
      IntervalsGrow(p, q - 1);
    }
  }

  /**
    * The last packet was sent no later than the clock was last read, and both no earlier than the intervals before
    * it allow; and that is within the time limit.
    */
  ghost predicate OnTime(p: Punch, start: nat, reading: nat) {
    && p.packets >= 1 && p.interval == IntervalAfter(p.packets)
    && p.lastSend <= reading && start + Earliest(p.packets) * MS <= reading
    && (p.packets > 1 ==> start + Earliest(p.packets) * MS <= p.lastSend)
    && (p.packets > 1 ==> Earliest(p.packets) * MS <= MAX_TIME)
  }

  lemma TimerOnTime(listen: bool, start: nat, p: Punch, e: Event, reading: nat)
    requires e.Timer? && reading + p.interval * MS <= e.limit <= e.measured <= e.sent
    requires OnTime(p, start, reading)
    ensures var q := Step(listen, start, p, e);
            OnTime(q, start, if q.packets > p.packets then e.sent else e.measured)
  {
  }

  lemma {:induction false} RunOnTime(listen: bool, start: nat, events: seq<Event>)
    requires Slept(listen, start, events)
    ensures OnTime(Run(listen, start, events), start, LastReading(listen, start, events))
  {
    if events != [] {
      var n := |events| - 1;
      RunOnTime(listen, start, events[..n]);
      if events[n].Timer? {
        TimerOnTime(listen, start, Run(listen, start, events[..n]), events[n],
                    LastReading(listen, start, events[..n]));
      }
    }
  }

  /**
    * Under every schedule that the sleep allows: the p-th packet is sent no earlier than the intervals before it
    * allow, which from the seventh on is 412 + 200 * (p - 7) ms, and that is within the time limit.
    */
  lemma PacketBound(listen: bool, start: nat, events: seq<Event>)
    requires Slept(listen, start, events)
    ensures var p := Run(listen, start, events);
            && p.packets >= 1
            && (p.packets > 1 ==> start + Earliest(p.packets) * MS <= p.lastSend)
            && (p.packets > 1 ==> Earliest(p.packets) * MS <= MAX_TIME)
            && (p.packets >= 7 ==> Earliest(p.packets) == 412 + 200 * (p.packets - 7))
  {
    RunOnTime(listen, start, events);
    if Run(listen, start, events).packets >= 7 {
      LaterIntervals(Run(listen, start, events).packets);
    }
  }

  /** Under every such schedule at most 104 packets are sent. */
  lemma PacketLimit(listen: bool, start: nat, events: seq<Event>)
    requires Slept(listen, start, events)
    ensures 1 <= Run(listen, start, events).packets <= 104
  {
    PacketBound(listen, start, events);
  }

  /** A timer that fires in time always finds the interval over: it sends a packet, or the limit has passed. */
  lemma EveryTimerCounts(listen: bool, start: nat, events: seq<Event>, e: Event)
    requires e.Timer? && Slept(listen, start, events + [e]) && Run(listen, start, events).outcome.None?
    ensures var p, q := Run(listen, start, events), Run(listen, start, events + [e]);
            if e.limit - start > MAX_TIME then q.outcome == Some(TimedOut) && q.packets == p.packets
            else
              && q.outcome.None? && q.packets == p.packets + 1
              && q.interval == Longer(p.interval) && q.lastSend == e.sent
  {
    assert (events + [e])[..|events|] == events;
    RunOnTime(listen, start, events);
    RunAppend(listen, start, events, e);
  }

  function Timers(events: seq<Event>): nat {
    if events == [] then 0
    else Timers(events[..|events| - 1]) + if events[|events| - 1].Timer? then 1 else 0
  }

  /** As long as nothing decides, one packet has been sent at first and one more at each timer. */
  lemma {:induction false} OnePacketEach(listen: bool, start: nat, events: seq<Event>)
    requires Slept(listen, start, events)
    requires NothingDecides(listen, start, events)
    ensures Run(listen, start, events).packets == 1 + Timers(events)
  {
    if events != [] {
      var n := |events| - 1;
      OnePacketEach(listen, start, events[..n]);
      Undecided(listen, start, events[..n]);
      if events[n].Timer? {
        assert events == events[..n] + [events[n]];
        EveryTimerCounts(listen, start, events[..n], events[n]);
      }
    }
  }

  lemma {:induction false} PacketsGrow(listen: bool, start: nat, events: seq<Event>, n: nat)
    requires n <= |events|
    ensures Run(listen, start, events[..n]).packets <= Run(listen, start, events).packets
    decreases |events|
  {
    if n < |events| {
      var m := |events| - 1;
      assert events[..m][..n] == events[..n];
      PacketsGrow(listen, start, events[..m], n);
    } else {
      assert events[..n] == events;
    }
  }

  lemma {:induction false} IntervalOfRun(listen: bool, start: nat, events: seq<Event>)
    ensures var p := Run(listen, start, events); p.packets >= 1 && p.interval == IntervalAfter(p.packets)
  {
    if events != [] {
      IntervalOfRun(listen, start, events[..|events| - 1]);
    }
  }

  /** The retry interval follows the packets sent, never gets shorter during a run and is at most 200 ms. */
  lemma IntervalNeverShrinks(listen: bool, start: nat, events: seq<Event>, n: nat)
    requires n <= |events|
    ensures var p, q := Run(listen, start, events[..n]), Run(listen, start, events);
            q.packets >= 1 && p.interval <= q.interval == IntervalAfter(q.packets) <= MAX_INTERVAL
  {
    IntervalOfRun(listen, start, events);
    IntervalOfRun(listen, start, events[..n]);
    PacketsGrow(listen, start, events, n);
    IntervalsGrow(Run(listen, start, events[..n]).packets, Run(listen, start, events).packets);
  }

  // ---- the bound is reached ----

  /** A timer that fires exactly when the sleep is over. */
  function OnTheDot(t: nat): Event {
    Timer(t, t, t)
  }

  function Prompt(start: nat, packets: nat): seq<Event>
    requires packets >= 1
  {
    if packets == 1 then [] else Prompt(start, packets - 1) + [OnTheDot(start + Earliest(packets) * MS)]
  }

  /** The loop's state after as many packets. */
  function Sent(start: nat, packets: nat): Punch
    requires packets >= 1
  {
    Punch(IntervalAfter(packets), packets, if packets == 1 then 0 else start + Earliest(packets) * MS, None)
  }

  /** A timer on the dot sends the next packet. */
  lemma PromptStep(listen: bool, start: nat, p: Punch, t: nat)
    requires p.outcome.None? && p.lastSend + p.interval * MS <= t <= start + MAX_TIME
    ensures Step(listen, start, p, OnTheDot(t)) == Punch(Longer(p.interval), p.packets + 1, t, None)
  {
  }

  lemma SleptAppend(listen: bool, start: nat, events: seq<Event>, t: nat)
    requires Slept(listen, start, events)
    requires LastReading(listen, start, events) + Run(listen, start, events).interval * MS <= t
    ensures Slept(listen, start, events + [OnTheDot(t)])
    ensures LastReading(listen, start, events + [OnTheDot(t)]) == t
  {
    assert (events + [OnTheDot(t)])[..|events|] == events;
  }

  lemma NextPacket(packets: nat)
    requires packets > 1
    ensures Earliest(packets) == Earliest(packets - 1) + IntervalAfter(packets - 1)
    ensures IntervalAfter(packets) == Longer(IntervalAfter(packets - 1))
  {
  }

  lemma {:induction false} PromptRun(listen: bool, start: nat, packets: nat)
    requires 1 <= packets <= 104
    ensures Run(listen, start, Prompt(start, packets)) == Sent(start, packets)
    ensures Slept(listen, start, Prompt(start, packets))
    ensures LastReading(listen, start, Prompt(start, packets)) == start + Earliest(packets) * MS
  {
    if packets > 1 {
      var before, t := Prompt(start, packets - 1), start + Earliest(packets) * MS;
      PromptRun(listen, start, packets - 1);
      PromptWithin(packets);
      NextPacket(packets);
      PromptStep(listen, start, Sent(start, packets - 1), t);
      RunAppend(listen, start, before, OnTheDot(t));
      SleptAppend(listen, start, before, t);
    }
  }

  lemma PromptWithin(packets: nat)
    requires 1 <= packets <= 104
    ensures Earliest(packets) <= 19_812
  {
    EarliestGrows(packets, 104);
    LaterIntervals(104);
  }

  lemma {:induction false} EarliestGrows(p: nat, q: nat)
    requires 1 <= p <= q
    ensures Earliest(p) <= Earliest(q)
  {
    if p < q {
      EarliestGrows(p, q - 1);
    }
  }

  /** A schedule without any delay sends 104 packets and times out at the next timer, whenever the limit starts. */
  lemma BoundIsReached(listen: bool, start: nat)
    ensures var events := Prompt(start, 104) + [OnTheDot(start + 20_012 * MS)];
            && Slept(listen, start, events)
            && Run(listen, start, events).packets == 104 && Run(listen, start, events).outcome == Some(TimedOut)
  {
    var t := start + 20_012 * MS;
    PromptRun(listen, start, 104);
    LaterIntervals(104);
    SleptAppend(listen, start, Prompt(start, 104), t);
    RunAppend(listen, start, Prompt(start, 104), OnTheDot(t));
  }
}
