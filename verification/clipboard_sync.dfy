/**
  * Clipboard synchronisation as a step protocol. Machines are joined by sessions, each with a client end and a
  * host end. A change of a machine's clipboard notifies its subscribers; a subscriber that is notified looks at
  * the clipboard and may send it to the other ends of its sessions; a message that arrives sets the clipboard.
  * Messages are applied by threads of their own, so they may overtake one another.
  */
module ClipboardSync {
  import opened Wrappers
  import opened Clipboards

  datatype Session = Session(client: nat, host: nat)

  /** bells bounds the notifications that one change of a clipboard gives each subscriber. */
  datatype Net = Net(codec: Codec, files: bool, size: nat, sessions: seq<Session>, bells: nat)

  datatype Machine = Machine(contents: seq<Data>, host: nat, client: nat)

  datatype Message = Message(to: nat, side: Side, clips: seq<Clip>)

  datatype State = State(machines: seq<Machine>, wire: multiset<Message>)

  function Opposite(side: Side): Side {
    match side
    case Host => Client
    case Client => Host
  }

  function End(s: Session, side: Side): nat {
    match side
    case Host => s.host
    case Client => s.client
  }

  ghost predicate IsNet(net: Net) {
    forall s | s in net.sessions :: s.client < net.size && s.host < net.size && s.client != s.host
  }

  /** A machine has a subscriber for a side when it is at that end of some session. */
  ghost predicate Subscribed(net: Net, m: nat, side: Side) {
    exists s | s in net.sessions :: End(s, side) == m
  }

  function Queue(machine: Machine, side: Side): nat {
    match side
    case Host => machine.host
    case Client => machine.client
  }

  function WithQueue(machine: Machine, side: Side, n: nat): Machine {
    match side
    case Host => machine.(host := n)
    case Client => machine.(client := n)
  }

  // ---- steps ----

  datatype Event =
    | Copy(m: nat, contents: seq<Data>, hostBells: nat, clientBells: nat)
    | Poll(m: nat, side: Side)
    | PollNothing(m: nat, side: Side) // the clipboard could not be read, or sending is switched off
    | Deliver(message: Message, hostBells: nat, clientBells: nat)
    | Ignore(message: Message) // the clipboard is switched off, or could not be set

  /** One message for the other end of every session of the machine. */
  function Fan(sessions: seq<Session>, m: nat, side: Side, clips: seq<Clip>): multiset<Message> {
    if sessions == [] then multiset{}
    else
      var rest := Fan(sessions[1..], m, side, clips);
      if End(sessions[0], side) == m
      then rest + multiset{Message(End(sessions[0], Opposite(side)), Opposite(side), clips)}
      else rest
  }

  function Ring(machine: Machine, contents: seq<Data>, hostBells: nat, clientBells: nat): Machine {
    Machine(contents, machine.host + hostBells, machine.client + clientBells)
  }

  ghost predicate BellsFit(net: Net, m: nat, hostBells: nat, clientBells: nat) {
    && hostBells <= net.bells && clientBells <= net.bells
    && (!Subscribed(net, m, Host) ==> hostBells == 0)
    && (!Subscribed(net, m, Client) ==> clientBells == 0)
  }

  /** Sets the clipboard of machine m and notifies its subscribers. */
  function Set(s: State, m: nat, contents: seq<Data>, hostBells: nat, clientBells: nat): State
    requires m < |s.machines|
  {
    s.(machines := s.machines[m := Ring(s.machines[m], contents, hostBells, clientBells)])
  }

  function TakeNote(s: State, m: nat, side: Side): State
    requires m < |s.machines| && Queue(s.machines[m], side) > 0
  {
    s.(machines := s.machines[m := WithQueue(s.machines[m], side, Queue(s.machines[m], side) - 1)])
  }

  ghost predicate Enabled(net: Net, s: State, e: Event) {
    match e
    case Copy(m, contents, hb, cb) =>
      m < |s.machines| && !Any(IsOwnerMark, contents) && BellsFit(net, m, hb, cb)
    case Poll(m, side) => m < |s.machines| && Queue(s.machines[m], side) > 0
    case PollNothing(m, side) => m < |s.machines| && Queue(s.machines[m], side) > 0
    case Deliver(message, hb, cb) =>
      message in s.wire && message.to < |s.machines| && BellsFit(net, message.to, hb, cb)
    case Ignore(message) => message in s.wire
  }

  /** What a look at machine m's clipboard sends. */
  function Sent(net: Net, machine: Machine, m: nat, side: Side): multiset<Message> {
    match Checked(net.codec, net.files, machine.contents, false)
    case None => multiset{}
    case Some(clips) => Fan(net.sessions, m, side, clips)
  }

  ghost function Next(net: Net, s: State, e: Event): State
    requires Enabled(net, s, e)
  {
    match e
    case Copy(m, contents, hb, cb) => Set(s, m, contents, hb, cb)
    case Poll(m, side) =>
      var s' := TakeNote(s, m, side);
      s'.(wire := s'.wire + Sent(net, s.machines[m], m, side))
    case PollNothing(m, side) => TakeNote(s, m, side)
    case Deliver(message, hb, cb) =>
      var m := message.to;
      var s' := s.(wire := s.wire - multiset{message});
      if FromClips(net.codec, message.clips) == [] then s'
      else Set(s', m, Updated(net.codec, s.machines[m].contents, message.clips, message.side), hb, cb)
    case Ignore(message) => s.(wire := s.wire - multiset{message})
  }

  /** A run: every event is enabled where it happens. */
  ghost predicate IsRun(net: Net, s: State, events: seq<Event>)
    decreases |events|
  {
    events == [] || (Enabled(net, s, events[0]) && IsRun(net, Next(net, s, events[0]), events[1..]))
  }

  ghost function After(net: Net, s: State, events: seq<Event>): State
    requires IsRun(net, s, events)
    decreases |events|
  {
    if events == [] then s else After(net, Next(net, s, events[0]), events[1..])
  }

  /** Nobody is notified and nothing is under way. */
  ghost predicate Quiet(s: State) {
    s.wire == multiset{} && forall m | 0 <= m < |s.machines| :: s.machines[m].host == s.machines[m].client == 0
  }

  // ---- the measure ----

  function MessageWeight(net: Net): nat {
    1 + 2 * net.bells
  }

  function NoisyWeight(net: Net): nat {
    1 + |net.sessions| * MessageWeight(net)
  }

  function NoteWeight(net: Net, machine: Machine): nat {
    if Checked(net.codec, net.files, machine.contents, false).None? then 1 else NoisyWeight(net)
  }

  function MachineWeight(net: Net, machine: Machine): nat {
    (machine.host + machine.client) * NoteWeight(net, machine)
  }

  function TotalWeight(net: Net, machines: seq<Machine>): nat {
    if machines == [] then 0 else MachineWeight(net, machines[0]) + TotalWeight(net, machines[1..])
  }

  function Measure(net: Net, s: State): nat {
    TotalWeight(net, s.machines) + |s.wire| * MessageWeight(net)
  }

  lemma {:induction false} WeightOfUpdate(net: Net, machines: seq<Machine>, m: nat, machine: Machine)
    requires m < |machines|
    ensures TotalWeight(net, machines[m := machine]) + MachineWeight(net, machines[m])
         == TotalWeight(net, machines) + MachineWeight(net, machine)
  {
    if m > 0 {
      WeightOfUpdate(net, machines[1..], m - 1, machine);
      assert machines[m := machine][1..] == machines[1..][m - 1 := machine];
    } else {
      assert machines[m := machine][1..] == machines[1..];
    }
  }

  lemma {:induction false} FanSize(sessions: seq<Session>, m: nat, side: Side, clips: seq<Clip>)
    ensures |Fan(sessions, m, side, clips)| <= |sessions|
  {
    if sessions != [] {
      FanSize(sessions[1..], m, side, clips);
    }
  }

  lemma Times(a: nat, b: nat, c: nat)
    requires a <= b
    ensures a * c <= b * c
  {
  }

  lemma OneLess(n: nat, w: nat)
    requires n > 0
    ensures (n - 1) * w + w == n * w
  {
  }

  /** Taking one note from a machine lowers its weight by that note. */
  lemma NoteTaken(net: Net, machine: Machine, side: Side)
    requires Queue(machine, side) > 0
    ensures MachineWeight(net, WithQueue(machine, side, Queue(machine, side) - 1)) + NoteWeight(net, machine)
         == MachineWeight(net, machine)
  {
    var machine' := WithQueue(machine, side, Queue(machine, side) - 1);
    assert NoteWeight(net, machine') == NoteWeight(net, machine);
    assert machine'.host + machine'.client == machine.host + machine.client - 1;
    OneLess(machine.host + machine.client, NoteWeight(net, machine));
  }

  lemma Distribute(a: nat, b: nat, c: nat)
    ensures (a + b) * c == a * c + b * c
  {
  }

  /** A look sends messages that weigh less than the note that caused it. */
  lemma SentWeight(net: Net, machine: Machine, m: nat, side: Side)
    ensures |Sent(net, machine, m, side)| * MessageWeight(net) < NoteWeight(net, machine)
  {
    var checked := Checked(net.codec, net.files, machine.contents, false);
    if checked.Some? {
      FanSize(net.sessions, m, side, checked.value);
      Times(|Sent(net, machine, m, side)|, |net.sessions|, MessageWeight(net));
    }
  }

  lemma PollMeasure(net: Net, s: State, m: nat, side: Side)
    requires Enabled(net, s, Poll(m, side))
    ensures Measure(net, Next(net, s, Poll(m, side))) + NoteWeight(net, s.machines[m])
         == Measure(net, s) + |Sent(net, s.machines[m], m, side)| * MessageWeight(net)
  {
    var machine := s.machines[m];
    var sent := Sent(net, machine, m, side);
    NoteTaken(net, machine, side);
    WeightOfUpdate(net, s.machines, m, WithQueue(machine, side, Queue(machine, side) - 1));
    assert |s.wire + sent| == |s.wire| + |sent|;
    Distribute(|s.wire|, |sent|, MessageWeight(net));
  }

  lemma PollDecreases(net: Net, s: State, m: nat, side: Side)
    requires Enabled(net, s, Poll(m, side))
    ensures Measure(net, Next(net, s, Poll(m, side))) < Measure(net, s)
  {
    PollMeasure(net, s, m, side);
    SentWeight(net, s.machines[m], m, side);
  }

  lemma WireShrinks(net: Net, wire: multiset<Message>, message: Message)
    requires message in wire
    ensures |wire - multiset{message}| * MessageWeight(net) + MessageWeight(net) == |wire| * MessageWeight(net)
  {
    assert |wire - multiset{message}| == |wire| - 1;
    OneLess(|wire|, MessageWeight(net));
  }

  /** Setting the clipboard to something that will not be sent adds at most one light note for every bell. */
  lemma SilentWeight(net: Net, machine: Machine, contents: seq<Data>, hb: nat, cb: nat)
    requires Checked(net.codec, net.files, contents, false).None?
    requires hb <= net.bells && cb <= net.bells
    ensures MachineWeight(net, Ring(machine, contents, hb, cb)) < MachineWeight(net, machine) + MessageWeight(net)
  {
    assert NoteWeight(net, Ring(machine, contents, hb, cb)) == 1;
    NoteIsHeavy(net, machine);
    LightNotes(machine.host + machine.client, hb + cb, NoteWeight(net, machine), net.bells);
  }

  lemma NoteIsHeavy(net: Net, machine: Machine)
    ensures NoteWeight(net, machine) >= 1
  {
  }

  lemma LightNotes(n: nat, more: nat, w: nat, bells: nat)
    requires w >= 1 && more <= 2 * bells
    ensures (n + more) * 1 < n * w + (1 + 2 * bells)
  {
    Times(1, w, n);
  }

  lemma DeliverDecreases(net: Net, s: State, message: Message, hb: nat, cb: nat)
    requires Enabled(net, s, Deliver(message, hb, cb))
    ensures Measure(net, Next(net, s, Deliver(message, hb, cb))) < Measure(net, s)
  {
    WireShrinks(net, s.wire, message);
    if FromClips(net.codec, message.clips) != [] {
      var machine := s.machines[message.to];
      var contents := Updated(net.codec, machine.contents, message.clips, message.side);
      UpdatedIsSilent(net.codec, net.files, machine.contents, message.clips, message.side);
      SilentWeight(net, machine, contents, hb, cb);
      WeightOfUpdate(net, s.machines, message.to, Ring(machine, contents, hb, cb));
    }
  }

  /** Every step that is not a user's copy lowers the measure. */
  lemma StepDecreases(net: Net, s: State, e: Event)
    requires Enabled(net, s, e) && !e.Copy?
    ensures Measure(net, Next(net, s, e)) < Measure(net, s)
  {
    match e
    case Poll(m, side) => PollDecreases(net, s, m, side);
    case PollNothing(m, side) =>
      NoteTaken(net, s.machines[m], side);
      WeightOfUpdate(net, s.machines, m, WithQueue(s.machines[m], side, Queue(s.machines[m], side) - 1));
    case Deliver(message, hb, cb) => DeliverDecreases(net, s, message, hb, cb);
    case Ignore(message) => WireShrinks(net, s.wire, message);
  }

  /** There is no echo: without further copies no interleaving is longer than the measure of its start. */
  lemma {:induction false} GoesQuiet(net: Net, s: State, events: seq<Event>)
    requires IsRun(net, s, events)
    requires forall e | e in events :: !e.Copy?
    ensures |events| + Measure(net, After(net, s, events)) <= Measure(net, s)
    decreases |events|
  {
    if events != [] {
      StepDecreases(net, s, events[0]);
      GoesQuiet(net, Next(net, s, events[0]), events[1..]);
    }
  }

  /** Every message is for a machine that exists. */
  ghost predicate Addressed(net: Net, s: State) {
    |s.machines| == net.size && forall message | message in s.wire :: message.to < net.size
  }

  /** A run can only stop where it is quiet. */
  lemma StuckIsQuiet(net: Net, s: State)
    requires Addressed(net, s)
    ensures Quiet(s) <==> forall e: Event | !e.Copy? :: !Enabled(net, s, e)
  {
    if forall e: Event | !e.Copy? :: !Enabled(net, s, e) {
      forall m | 0 <= m < |s.machines|
        ensures s.machines[m].host == s.machines[m].client == 0
      {
        assert !Enabled(net, s, Poll(m, Host));
        assert !Enabled(net, s, Poll(m, Client));
      }
      if s.wire != multiset{} {
        var message :| message in s.wire;
        assert Enabled(net, s, Ignore(message));
      }
    }
  }

  lemma StepAddressed(net: Net, s: State, e: Event)
    requires IsNet(net) && Addressed(net, s) && Enabled(net, s, e)
    ensures Addressed(net, Next(net, s, e))
  {
    if e.Poll? {
      var checked := Checked(net.codec, net.files, s.machines[e.m].contents, false);
      if checked.Some? {
        forall message | message in Fan(net.sessions, e.m, e.side, checked.value)
          ensures message.to < net.size
        {
          FanMember(net.sessions, e.m, e.side, checked.value, message);
        }
      }
    }
  }

  /** A run that cannot be continued, whatever copies it began with, ends in a quiet state. */
  lemma {:induction false} CompleteRunIsQuiet(net: Net, s: State, events: seq<Event>)
    requires IsNet(net) && Addressed(net, s) && IsRun(net, s, events)
    requires forall e: Event | !e.Copy? :: !Enabled(net, After(net, s, events), e)
    ensures Quiet(After(net, s, events))
    decreases |events|
  {
    if events == [] {
      StuckIsQuiet(net, s);
    } else {
      StepAddressed(net, s, events[0]);
      CompleteRunIsQuiet(net, Next(net, s, events[0]), events[1..]);
    }
  }

  // ---- one copy reaches every neighbour ----

  /** The run has no failures: every look and every message has its effect. */
  ghost predicate Reliable(events: seq<Event>) {
    forall e | e in events :: e.Poll? || e.Deliver?
  }

  lemma {:induction false} FanMember(sessions: seq<Session>, m: nat, side: Side, clips: seq<Clip>, message: Message)
    ensures message in Fan(sessions, m, side, clips) <==>
            message.clips == clips && message.side == Opposite(side)
            && exists s | s in sessions :: End(s, side) == m && End(s, Opposite(side)) == message.to
  {
    if sessions != [] {
      FanMember(sessions[1..], m, side, clips, message);
      assert sessions == [sessions[0]] + sessions[1..];
    }
  }

  /** What a machine holds once the data have reached it. */
  function Received(data: seq<Data>, side: Side): seq<Data> {
    data + [Special(OWNER, OwnerData(side))]
  }

  ghost predicate HasReceived(s: State, m: nat, data: seq<Data>)
    requires m < |s.machines|
  {
    exists side :: s.machines[m].contents == Received(data, side)
  }

  /** A look at the contents sends the message, and it holds something that can be set. */
  ghost predicate Sends(net: Net, contents: seq<Data>, clips: seq<Clip>) {
    Checked(net.codec, net.files, contents, false) == Some(clips) && FromClips(net.codec, clips) != []
  }

  ghost predicate IsNeighbour(net: Net, m: nat, side: Side, j: nat) {
    exists s | s in net.sessions :: End(s, side) == m && End(s, Opposite(side)) == j
  }

  /** The copy is still to be looked at, is on its way, or has arrived. */
  ghost predicate Reaches(net: Net, s: State, m: nat, clips: seq<Clip>, side: Side, j: nat)
    requires m < |s.machines| && j < |s.machines|
  {
    || Queue(s.machines[m], side) > 0
    || Message(j, Opposite(side), clips) in s.wire
    || HasReceived(s, j, FromClips(net.codec, clips))
  }

  /** What holds after machine m's user has copied contents in the quiet state s0. */
  ghost predicate Spreading(net: Net, s0: State, s: State, m: nat, contents: seq<Data>, clips: seq<Clip>) {
    && |s.machines| == |s0.machines| == net.size && m < net.size
    && s.machines[m].contents == contents
    && (forall message | message in s.wire ::
          && message.clips == clips && message.to != m && message.to < net.size
          && IsNeighbour(net, m, Opposite(message.side), message.to))
    && (forall j | 0 <= j < net.size && j != m ::
          || (HasReceived(s, j, FromClips(net.codec, clips)) && exists side :: IsNeighbour(net, m, side, j))
          || (s.machines[j] == s0.machines[j] && s.machines[j].host == s.machines[j].client == 0))
    && (forall j, side | 0 <= j < net.size && IsNeighbour(net, m, side, j) :: Reaches(net, s, m, clips, side, j))
  }

  lemma CopySpreads(net: Net, s0: State, e: Event, clips: seq<Clip>)
    requires IsNet(net) && |s0.machines| == net.size && Quiet(s0)
    requires e.Copy? && Enabled(net, s0, e)
    requires Subscribed(net, e.m, Host) ==> e.hostBells > 0
    requires Subscribed(net, e.m, Client) ==> e.clientBells > 0
    ensures Spreading(net, s0, Next(net, s0, e), e.m, e.contents, clips)
  {
    var s := Next(net, s0, e);
    forall j, side | 0 <= j < net.size && IsNeighbour(net, e.m, side, j)
      ensures Reaches(net, s, e.m, clips, side, j)
    {
      assert Subscribed(net, e.m, side);
    }
  }

  /** A look at the copying machine's clipboard sends the message to all its peers on that side. */
  lemma SentToPeers(net: Net, machine: Machine, m: nat, side: Side, clips: seq<Clip>, message: Message)
    requires Checked(net.codec, net.files, machine.contents, false) == Some(clips)
    ensures message in Sent(net, machine, m, side) <==>
            message.clips == clips && message.side == Opposite(side)
            && IsNeighbour(net, m, side, message.to)
  {
    FanMember(net.sessions, m, side, clips, message);
  }

  lemma OwnPollSpreads(net: Net, s0: State, s: State, m: nat, contents: seq<Data>, clips: seq<Clip>, side: Side)
    requires IsNet(net) && Sends(net, contents, clips)
    requires Spreading(net, s0, s, m, contents, clips) && Enabled(net, s, Poll(m, side))
    ensures Spreading(net, s0, Next(net, s, Poll(m, side)), m, contents, clips)
  {
    var s' := Next(net, s, Poll(m, side));
    var sent := Sent(net, s.machines[m], m, side);
    forall message | message in s'.wire
      ensures message.clips == clips && message.to != m && message.to < net.size
      ensures IsNeighbour(net, m, Opposite(message.side), message.to)
    {
      if message !in s.wire {
        SentToPeers(net, s.machines[m], m, side, clips, message);
      }
    }
    assert forall j | 0 <= j < net.size && j != m :: s'.machines[j] == s.machines[j];
    forall j, side' | 0 <= j < net.size && IsNeighbour(net, m, side', j)
      ensures Reaches(net, s', m, clips, side', j)
    {
      assert Reaches(net, s, m, clips, side', j);
      SentToPeers(net, s.machines[m], m, side, clips, Message(j, Opposite(side), clips));
    }
  }

  lemma OtherPollSpreads(net: Net, s0: State, s: State, m: nat, contents: seq<Data>, clips: seq<Clip>, k: nat,
                         side: Side)
    requires k != m && Spreading(net, s0, s, m, contents, clips) && Enabled(net, s, Poll(k, side))
    ensures Spreading(net, s0, Next(net, s, Poll(k, side)), m, contents, clips)
  {
    var s' := Next(net, s, Poll(k, side));
    ReceivedIsSilent(net, s, k, FromClips(net.codec, clips));
    assert s'.wire == s.wire;
    forall j | 0 <= j < net.size && HasReceived(s, j, FromClips(net.codec, clips))
      ensures HasReceived(s', j, FromClips(net.codec, clips))
    {
    }
    forall j, side' | 0 <= j < net.size && IsNeighbour(net, m, side', j)
      ensures Reaches(net, s', m, clips, side', j)
    {
      assert Reaches(net, s, m, clips, side', j);
    }
  }

  lemma ReceivedIsSilent(net: Net, s: State, k: nat, data: seq<Data>)
    requires k < |s.machines| && HasReceived(s, k, data)
    ensures Checked(net.codec, net.files, s.machines[k].contents, false) == None
  {
    var side :| s.machines[k].contents == Received(data, side);
    var mark := Special(OWNER, OwnerData(side));
    assert Received(data, side)[|data|] == mark;
    MarkedIsSilent(net.codec, net.files, Received(data, side), mark);
  }

  lemma DeliverReceives(net: Net, s0: State, s: State, m: nat, contents: seq<Data>, clips: seq<Clip>, e: Event)
    requires IsNet(net) && Sends(net, contents, clips)
    requires Spreading(net, s0, s, m, contents, clips) && e.Deliver? && Enabled(net, s, e)
    ensures var s' := Next(net, s, e);
            && e.message.to < net.size && e.message.to != m && |s'.machines| == |s.machines|
            && HasReceived(s', e.message.to, FromClips(net.codec, clips))
            && forall j | 0 <= j < net.size && j != e.message.to :: s'.machines[j] == s.machines[j]
  {
    assert Next(net, s, e).machines[e.message.to].contents == Received(FromClips(net.codec, clips), e.message.side);
  }

  lemma DeliverReaches(net: Net, s0: State, s: State, m: nat, contents: seq<Data>, clips: seq<Clip>, e: Event,
                       side: Side, j: nat)
    requires IsNet(net) && Sends(net, contents, clips)
    requires Spreading(net, s0, s, m, contents, clips) && e.Deliver? && Enabled(net, s, e)
    requires j < net.size && IsNeighbour(net, m, side, j)
    ensures |Next(net, s, e).machines| == net.size && Reaches(net, Next(net, s, e), m, clips, side, j)
  {
    DeliverReceives(net, s0, s, m, contents, clips, e);
    assert Reaches(net, s, m, clips, side, j);
  }

  lemma DeliverSpreads(net: Net, s0: State, s: State, m: nat, contents: seq<Data>, clips: seq<Clip>, e: Event)
    requires IsNet(net) && Sends(net, contents, clips)
    requires Spreading(net, s0, s, m, contents, clips) && e.Deliver? && Enabled(net, s, e)
    ensures Spreading(net, s0, Next(net, s, e), m, contents, clips)
  {
    var s' := Next(net, s, e);
    DeliverReceives(net, s0, s, m, contents, clips, e);
    forall j | 0 <= j < net.size && HasReceived(s, j, FromClips(net.codec, clips))
      ensures HasReceived(s', j, FromClips(net.codec, clips))
    {
    }
    forall j, side | 0 <= j < net.size && IsNeighbour(net, m, side, j)
      ensures Reaches(net, s', m, clips, side, j)
    {
      DeliverReaches(net, s0, s, m, contents, clips, e, side, j);
    }
  }

  lemma {:induction false} RunSpreads(net: Net, s0: State, s: State, m: nat, contents: seq<Data>, clips: seq<Clip>,
                                       events: seq<Event>)
    requires IsNet(net) && Sends(net, contents, clips)
    requires Spreading(net, s0, s, m, contents, clips) && IsRun(net, s, events) && Reliable(events)
    ensures Spreading(net, s0, After(net, s, events), m, contents, clips)
    decreases |events|
  {
    if events != [] {
      var e := events[0];
      assert e in events;
      if e.Poll? {
        if e.m == m {
          OwnPollSpreads(net, s0, s, m, contents, clips, e.side);
        } else {
          OtherPollSpreads(net, s0, s, m, contents, clips, e.m, e.side);
        }
      } else {
        DeliverSpreads(net, s0, s, m, contents, clips, e);
      }
      RunSpreads(net, s0, Next(net, s, e), m, contents, clips, events[1..]);
    }
  }

  // ---- a copy of which nothing is sent ----

  /** Nothing is under way, and only machine m has notifications that it has not looked at. */
  ghost predicate Still(net: Net, s0: State, s: State, m: nat) {
    && |s.machines| == |s0.machines| && m < |s.machines| && s.wire == multiset{}
    && Checked(net.codec, net.files, s.machines[m].contents, false) == None
    && forall j | 0 <= j < |s.machines| && j != m ::
         s.machines[j] == s0.machines[j] && s.machines[j].host == s.machines[j].client == 0
  }

  lemma {:induction false} RunStaysStill(net: Net, s0: State, s: State, m: nat, events: seq<Event>)
    requires Still(net, s0, s, m) && IsRun(net, s, events)
    requires forall e | e in events :: !e.Copy?
    ensures Still(net, s0, After(net, s, events), m)
    ensures After(net, s, events).machines[m].contents == s.machines[m].contents
    decreases |events|
  {
    if events != [] {
      var e := events[0];
      assert e in events;
      RunStaysStill(net, s0, Next(net, s, e), m, events[1..]);
    }
  }

  // ---- the result ----

  /** A run from a quiet state that begins with one copy, which every subscriber hears of, and ends quiet. */
  ghost predicate IsCopyRun(net: Net, s0: State, copy: Event, events: seq<Event>) {
    && IsNet(net) && Faithful(net.codec) && |s0.machines| == net.size && Quiet(s0)
    && copy.Copy? && Enabled(net, s0, copy)
    && (Subscribed(net, copy.m, Host) ==> copy.hostBells > 0)
    && (Subscribed(net, copy.m, Client) ==> copy.clientBells > 0)
    && IsRun(net, Next(net, s0, copy), events) && Reliable(events)
    && Quiet(After(net, Next(net, s0, copy), events))
  }

  ghost predicate IsPeer(net: Net, m: nat, j: nat) {
    exists side :: IsNeighbour(net, m, side, j)
  }

  lemma SentCopyConverges(net: Net, s0: State, copy: Event, clips: seq<Clip>, events: seq<Event>)
    requires IsCopyRun(net, s0, copy, events) && Sends(net, copy.contents, clips)
    ensures var s := After(net, Next(net, s0, copy), events);
            && |s.machines| == net.size
            && s.machines[copy.m].contents == copy.contents
            && forall j | 0 <= j < net.size && j != copy.m ::
                 if IsPeer(net, copy.m, j) then HasReceived(s, j, FromClips(net.codec, clips))
                 else s.machines[j] == s0.machines[j]
  {
    var m := copy.m;
    CopySpreads(net, s0, copy, clips);
    RunSpreads(net, s0, Next(net, s0, copy), m, copy.contents, clips, events);
    var s := After(net, Next(net, s0, copy), events);
    forall j | 0 <= j < net.size && j != m
      ensures if IsPeer(net, m, j) then HasReceived(s, j, FromClips(net.codec, clips))
              else s.machines[j] == s0.machines[j]
    {
      if side :| IsNeighbour(net, m, side, j) {
        assert Reaches(net, s, m, clips, side, j);
      }
    }
  }

  lemma SilentCopyStays(net: Net, s0: State, copy: Event, events: seq<Event>)
    requires IsCopyRun(net, s0, copy, events) && Checked(net.codec, net.files, copy.contents, false) == None
    ensures var s := After(net, Next(net, s0, copy), events);
            && |s.machines| == net.size
            && s.machines[copy.m].contents == copy.contents
            && forall j | 0 <= j < net.size && j != copy.m :: s.machines[j] == s0.machines[j]
  {
    RunStaysStill(net, s0, Next(net, s0, copy), copy.m, events);
  }

  lemma NotOwned(contents: seq<Data>)
    requires !Any(IsOwnerMark, contents)
    ensures !IsOwned(contents)
  {
    forall mark: Bytes | Special(OWNER, mark) in contents
      ensures mark == [] || mark[0] % 4 == 0
    {
      var i :| 0 <= i < |contents| && contents[i] == Special(OWNER, mark);
      assert !IsOwnerMark(contents[i]);
    }
  }

  /**
    * One copy of any contents from a quiet state, whenever the machines come to rest: if the contents hold a file
    * list where those are synchronised, or nothing of the kinds that are, every other machine is as it was. Otherwise
    * every peer of the copying machine holds what the wire gives of the data of those kinds, one datum for each, and
    * the owner mark.
    */
  lemma AnyCopyConverges(net: Net, s0: State, copy: Event, events: seq<Event>)
    requires IsCopyRun(net, s0, copy, events)
    ensures var s := After(net, Next(net, s0, copy), events);
            var sent := if net.files && HasFiles(copy.contents) then [] else Synced(net.files, copy.contents);
            var got := FromClips(net.codec, ToClips(net.codec, sent));
            && |s.machines| == net.size && |got| == |sent|
            && s.machines[copy.m].contents == copy.contents
            && forall j | 0 <= j < net.size && j != copy.m ::
                 if sent != [] && IsPeer(net, copy.m, j) then HasReceived(s, j, got)
                 else s.machines[j] == s0.machines[j]
  {
    NotOwned(copy.contents);
    CheckedIs(net.codec, net.files, copy.contents, false);
    FetchedIs(net.files, copy.contents, false);
    FetchedArrives(net.codec, net.files, copy.contents, false);
    match Checked(net.codec, net.files, copy.contents, false)
    case Some(clips) => SentCopyConverges(net, s0, copy, clips, events);
    case None => SilentCopyStays(net, s0, copy, events);
  }

  /**
    * One copy of contents that can be sent whole: whenever the machines come to rest, every peer of the copying
    * machine holds exactly the copied contents and the owner mark, and every other machine is as it was.
    */
  lemma SingleCopyConverges(net: Net, s0: State, copy: Event, events: seq<Event>)
    requires IsCopyRun(net, s0, copy, events) && IsWhole(net.codec, copy.contents)
    ensures var s := After(net, Next(net, s0, copy), events);
            && |s.machines| == net.size
            && s.machines[copy.m].contents == copy.contents
            && forall j | 0 <= j < net.size && j != copy.m ::
                 if IsPeer(net, copy.m, j) then HasReceived(s, j, copy.contents)
                 else s.machines[j] == s0.machines[j]
  {
    WholeIsSent(net.codec, net.files, copy.contents);
    SentCopyConverges(net, s0, copy, ToClips(net.codec, copy.contents), events);
  }
}
