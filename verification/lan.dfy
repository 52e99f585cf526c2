/** Merging the answers of a LAN discovery into the saved list of peers (src/lan.rs). */
module LanPeers {
  import opened Wrappers

  datatype Peer = Peer(id: string, username: string, hostname: string, platform: string, online: bool,
                       ipMac: map<string, string>)

  /** What makes two records the same peer. */
  type Key = (string, string)

  function KeyOf(p: Peer): Key {
    (p.id, p.username)
  }

  predicate IsSamePeer(a: Peer, b: Peer) {
    a.id == b.id && a.username == b.username
  }

  function Offline(p: Peer): Peer {
    p.(online := false)
  }

  function AllOffline(peers: seq<Peer>): seq<Peer> {
    seq(|peers|, i requires 0 <= i < |peers| => Offline(peers[i]))
  }

  function Without(peers: seq<Peer>, k: Key): seq<Peer> {
    if peers == [] then []
    else if KeyOf(peers[0]) == k then Without(peers[1..], k)
    else [peers[0]] + Without(peers[1..], k)
  }

  // ---- what the merged list should be ----

  function Keys(peers: seq<Peer>): set<Key> {
    set p | p in peers :: KeyOf(p)
  }

  /** The latest answer of every responder, the most recent one first. */
  function LatestFirst(answers: seq<Peer>): seq<Peer> {
    if answers == [] then []
    else if KeyOf(answers[0]) in Keys(answers[1..]) then LatestFirst(answers[1..])
    else LatestFirst(answers[1..]) + [answers[0]]
  }

  /** The union of the addresses that one responder has answered with; the earliest answer wins. */
  function Addresses(answers: seq<Peer>, k: Key): map<string, string> {
    if answers == [] then map[]
    else if KeyOf(answers[0]) == k then Addresses(answers[1..], k) + answers[0].ipMac
    else Addresses(answers[1..], k)
  }

  /** The addresses of every responder. */
  function AddressBook(answers: seq<Peer>): Key -> map<string, string> {
    k => Addresses(answers, k)
  }

  function WithMaps(maps: Key -> map<string, string>, peers: seq<Peer>): seq<Peer> {
    seq(|peers|, i requires 0 <= i < |peers| => peers[i].(ipMac := maps(KeyOf(peers[i]))))
  }

  /** The saved peers that have not answered, in their old order. */
  function Silent(saved: seq<Peer>, answers: seq<Peer>): seq<Peer> {
    if saved == [] then []
    else if KeyOf(saved[0]) in Keys(answers) then Silent(saved[1..], answers)
    else [Offline(saved[0])] + Silent(saved[1..], answers)
  }

  /** The responders by latest answer with the given addresses, then the silent peers in their old order. */
  function Listed(maps: Key -> map<string, string>, saved: seq<Peer>, answers: seq<Peer>): seq<Peer> {
    WithMaps(maps, LatestFirst(answers)) + Silent(saved, answers)
  }

  /** What the list is meant to be: every responder has the addresses of this discovery. */
  function Merged(saved: seq<Peer>, answers: seq<Peer>): seq<Peer> {
    Listed(AddressBook(answers), saved, answers)
  }

  // ---- what it is when an id answers under several user names ----

  /** The key of the first answer with this id. */
  function FirstKey(answers: seq<Peer>, id: string): Option<Key> {
    if answers == [] then None
    else if answers[0].id == id then Some(KeyOf(answers[0]))
    else FirstKey(answers[1..], id)
  }

  /** The key answers, but an answer of the same id under another key came first. */
  predicate ComesSecond(answers: seq<Peer>, k: Key) {
    k in Keys(answers) && FirstKey(answers, k.0) != Some(k)
  }

  /** The addresses of the saved record. */
  function SavedAddresses(saved: seq<Peer>, k: Key): map<string, string> {
    if saved == [] then map[]
    else if KeyOf(saved[0]) == k then saved[0].ipMac
    else SavedAddresses(saved[1..], k)
  }

  /** A key that comes second is taken for one that has answered before: its saved addresses are kept. */
  function KeptAddresses(saved: seq<Peer>, answers: seq<Peer>, k: Key): map<string, string> {
    if ComesSecond(answers, k) then Addresses(answers, k) + SavedAddresses(saved, k) else Addresses(answers, k)
  }

  function KeptBook(saved: seq<Peer>, answers: seq<Peer>): Key -> map<string, string> {
    k => KeptAddresses(saved, answers, k)
  }

  function Computed(saved: seq<Peer>, answers: seq<Peer>): seq<Peer> {
    Listed(KeptBook(saved, answers), saved, answers)
  }

  // ---- one step of the loop ----

  ghost predicate Distinct(peers: seq<Peer>) {
    forall i, j | 0 <= i < j < |peers| :: KeyOf(peers[i]) != KeyOf(peers[j])
  }

  /** Answers are sent with the peer marked as online. */
  ghost predicate AllOnline(answers: seq<Peer>) {
    forall a | a in answers :: a.online
  }

  /** Every id answers under one key. */
  ghost predicate OneNamePerId(answers: seq<Peer>) {
    forall a, b | a in answers && b in answers && a.id == b.id :: a.username == b.username
  }

  /** Index of the record of the same peer; the length when there is none. */
  function Position(peers: seq<Peer>, peer: Peer): (pos: nat)
    ensures pos <= |peers|
    ensures pos < |peers| ==> IsSamePeer(peers[pos], peer)
    ensures forall i | 0 <= i < pos :: !IsSamePeer(peers[i], peer)
  {
    if peers == [] || IsSamePeer(peers[0], peer) then 0 else 1 + Position(peers[1..], peer)
  }

  /** The answer moves to the front; what an earlier answer of this discovery said is kept. */
  function Step(peers: seq<Peer>, responded: set<string>, peer: Peer): seq<Peer> {
    var pos := Position(peers, peer);
    if pos == |peers| then [peer] + peers
    else
      var old_ := peers[pos];
      var rest := peers[..pos] + peers[pos + 1..];
      if peer.id in responded then [peer.(ipMac := peer.ipMac + old_.ipMac, online := true)] + rest
      else [peer] + rest
  }

  function Ids(answers: seq<Peer>): set<string> {
    set a | a in answers :: a.id
  }

  function Merge(saved: seq<Peer>, answers: seq<Peer>): seq<Peer> {
    if answers == [] then AllOffline(saved)
    else
      var n := |answers| - 1;
      Step(Merge(saved, answers[..n]), Ids(answers[..n]), answers[n])
  }

  lemma MergePrefix(saved: seq<Peer>, answers: seq<Peer>, i: nat)
    requires i < |answers|
    ensures Merge(saved, answers[..i + 1])
         == Step(Merge(saved, answers[..i]), Ids(answers[..i]), answers[i])
    ensures Ids(answers[..i + 1]) == Ids(answers[..i]) + {answers[i].id}
  {
    assert answers[..i + 1][..i] == answers[..i];
    assert answers[..i + 1] == answers[..i] + [answers[i]];
  }

  method MarkOffline(saved: seq<Peer>) returns (peers: seq<Peer>)
    ensures peers == AllOffline(saved)
  {
    peers := saved;
    for i := 0 to |saved|
      invariant |peers| == |saved|
      invariant forall j | 0 <= j < |saved| :: peers[j] == if j < i then Offline(saved[j]) else saved[j]
    {
      peers := peers[i := peers[i].(online := false)];
    }
  }

  method HandleReceivedPeers(saved: seq<Peer>, answers: seq<Peer>) returns (peers: seq<Peer>)
    ensures peers == Merge(saved, answers)
  {
    peers := MarkOffline(saved);
    var responseSet: set<string> := {};
    for i := 0 to |answers|
      invariant responseSet == Ids(answers[..i])
      invariant peers == Merge(saved, answers[..i])
    {
      MergePrefix(saved, answers, i);
      var inResponseSet := answers[i].id in responseSet;
      responseSet := responseSet + {answers[i].id};
      peers := Receive(peers, Ids(answers[..i]), inResponseSet, answers[i]);
    }
    assert answers[..|answers|] == answers;
  }

  method Receive(peers0: seq<Peer>, ghost responded: set<string>, inResponseSet: bool, peer0: Peer)
    returns (peers: seq<Peer>)
    requires inResponseSet == (peer0.id in responded)
    ensures peers == Step(peers0, responded, peer0)
  {
    peers := peers0;
    var peer := peer0;
    var pos := Position(peers, peer);
    if pos < |peers| {
      var peer1 := peers[pos];
      peers := peers[..pos] + peers[pos + 1..];
      if inResponseSet {
        peer := peer.(ipMac := peer.ipMac + peer1.ipMac);
        peer := peer.(online := true);
      }
    }
    peers := [peer] + peers;
  }

  // ---- the parts of the merged list under one more answer ----

  lemma KeysOfAppend(answers: seq<Peer>, a: Peer)
    ensures Keys(answers + [a]) == Keys(answers) + {KeyOf(a)}
  {
    assert forall p :: p in answers + [a] <==> p in answers || p == a;
  }

  lemma KeysOfPrepend(a: Peer, answers: seq<Peer>)
    ensures Keys([a] + answers) == {KeyOf(a)} + Keys(answers)
  {
    assert forall p :: p in [a] + answers <==> p in answers || p == a;
  }

  lemma {:induction false} WithoutConcat(a: seq<Peer>, b: seq<Peer>, k: Key)
    ensures Without(a + b, k) == Without(a, k) + Without(b, k)
  {
    if a == [] {
      assert a + b == b;
    } else {
      WithoutConcat(a[1..], b, k);
      assert (a + b)[1..] == a[1..] + b;
    }
  }

  lemma {:induction false} LatestFirstAppend(answers: seq<Peer>, a: Peer)
    ensures LatestFirst(answers + [a]) == [a] + Without(LatestFirst(answers), KeyOf(a))
  {
    var longer := answers + [a];
    if answers == [] {
      assert longer == [a] && Keys([]) == {};
    } else {
      var rest := answers[1..];
      var latest := LatestFirst(rest);
      assert longer[1..] == rest + [a];
      LatestFirstAppend(rest, a);
      KeysOfAppend(rest, a);
      if KeyOf(answers[0]) !in Keys(rest) {
        WithoutConcat(latest, [answers[0]], KeyOf(a));
        var first := Without([answers[0]], KeyOf(a));
        assert first == if KeyOf(answers[0]) == KeyOf(a) then [] else [answers[0]];
        Associates([a], Without(latest, KeyOf(a)), first);
      }
    }
  }

  lemma {:induction false} AddressesAppend(answers: seq<Peer>, a: Peer, k: Key)
    ensures Addresses(answers + [a], k)
         == if KeyOf(a) == k then a.ipMac + Addresses(answers, k) else Addresses(answers, k)
  {
    if answers == [] {
      assert (answers + [a])[1..] == [];
    } else {
      assert (answers + [a])[1..] == answers[1..] + [a];
      AddressesAppend(answers[1..], a, k);
    }
  }

  lemma {:induction false} SilentAppend(saved: seq<Peer>, answers: seq<Peer>, a: Peer)
    ensures Silent(saved, answers + [a]) == Without(Silent(saved, answers), KeyOf(a))
  {
    KeysOfAppend(answers, a);
    if saved != [] {
      SilentAppend(saved[1..], answers, a);
    }
  }

  lemma {:induction false} WithoutMaps(f: Key -> map<string, string>, g: Key -> map<string, string>,
                                      peers: seq<Peer>, k: Key)
    requires forall p | p in peers && KeyOf(p) != k :: f(KeyOf(p)) == g(KeyOf(p))
    ensures Without(WithMaps(f, peers), k) == WithMaps(g, Without(peers, k))
  {
    if peers != [] {
      var tail := peers[1..];
      assert WithMaps(f, peers)[1..] == WithMaps(f, tail);
      WithoutMaps(f, g, tail, k);
      if KeyOf(peers[0]) != k {
        assert peers[0] in peers;
        assert WithMaps(g, [peers[0]] + Without(tail, k))
            == [WithMaps(f, peers)[0]] + WithMaps(g, Without(tail, k));
      }
    }
  }

  lemma WithMapsFront(g: Key -> map<string, string>, a: Peer, rest: seq<Peer>)
    ensures WithMaps(g, [a] + rest) == [a.(ipMac := g(KeyOf(a)))] + WithMaps(g, rest)
  {
  }

  /** Another answer moves its peer to the front, whatever the addresses, as long as no other peer's change. */
  lemma ListedAppend(f: Key -> map<string, string>, g: Key -> map<string, string>, saved: seq<Peer>,
                     answers: seq<Peer>, a: Peer)
    requires forall p | p in answers && KeyOf(p) != KeyOf(a) :: f(KeyOf(p)) == g(KeyOf(p))
    ensures Listed(g, saved, answers + [a])
         == [a.(ipMac := g(KeyOf(a)))] + Without(Listed(f, saved, answers), KeyOf(a))
  {
    var k := KeyOf(a);
    var latest, silent := LatestFirst(answers), Silent(saved, answers);
    var rest := Without(WithMaps(f, latest), k);
    assert WithMaps(g, LatestFirst(answers + [a])) == [a.(ipMac := g(k))] + rest by {
      LatestKeys(answers);
      LatestFirstAppend(answers, a);
      WithoutMaps(f, g, latest, k);
      WithMapsFront(g, a, Without(latest, k));
    }
    SilentAppend(saved, answers, a);
    WithoutConcat(WithMaps(f, latest), silent, k);
    Associates([a.(ipMac := g(k))], rest, Without(silent, k));
  }

  lemma Associates(a: seq<Peer>, b: seq<Peer>, c: seq<Peer>)
    ensures (a + b) + c == a + (b + c)
  {
  }

  /** Another answer moves its peer to the front of the merged list, with all its addresses. */
  lemma MergedAppend(saved: seq<Peer>, answers: seq<Peer>, a: Peer)
    ensures Merged(saved, answers + [a])
         == [a.(ipMac := a.ipMac + Addresses(answers, KeyOf(a)))] + Without(Merged(saved, answers), KeyOf(a))
  {
    AddressesAppend(answers, a, KeyOf(a));
    forall p | p in answers && KeyOf(p) != KeyOf(a)
      ensures AddressBook(answers)(KeyOf(p)) == AddressBook(answers + [a])(KeyOf(p))
    {
      AddressesAppend(answers, a, KeyOf(p));
    }
    ListedAppend(AddressBook(answers), AddressBook(answers + [a]), saved, answers, a);
  }

  lemma {:induction false} FirstKeyAppend(answers: seq<Peer>, a: Peer, id: string)
    ensures FirstKey(answers, id).Some? <==> id in Ids(answers)
    ensures FirstKey(answers + [a], id)
         == if id in Ids(answers) then FirstKey(answers, id) else if a.id == id then Some(KeyOf(a)) else None
  {
    if answers == [] {
      assert (answers + [a])[1..] == [];
    } else {
      var tail := answers[1..];
      assert answers == [answers[0]] + tail;
      assert (answers + [a])[1..] == tail + [a];
      FirstKeyAppend(tail, a, id);
      assert id in Ids(answers) <==> answers[0].id == id || id in Ids(tail);
    }
  }

  lemma KeyHasId(answers: seq<Peer>, k: Key)
    requires k in Keys(answers)
    ensures k.0 in Ids(answers)
  {
    var p :| p in answers && KeyOf(p) == k;
  }

  /** Which key comes second never changes once it has answered; a new key does if its id has answered. */
  lemma ComesSecondAppend(answers: seq<Peer>, a: Peer, k: Key)
    ensures ComesSecond(answers + [a], k)
        <==> if k in Keys(answers) then ComesSecond(answers, k) else k == KeyOf(a) && a.id in Ids(answers)
  {
    KeysOfAppend(answers, a);
    FirstKeyAppend(answers, a, k.0);
    if k in Keys(answers) {
      KeyHasId(answers, k);
    } else if k == KeyOf(a) && a.id in Ids(answers) {
      FirstKeyAnswers(answers, a.id);
    }
  }

  lemma {:induction false} FirstKeyAnswers(answers: seq<Peer>, id: string)
    requires FirstKey(answers, id).Some?
    ensures FirstKey(answers, id).value in Keys(answers) && FirstKey(answers, id).value.0 == id
  {
    KeysOfPrepend(answers[0], answers[1..]);
    assert answers == [answers[0]] + answers[1..];
    if answers[0].id != id {
      FirstKeyAnswers(answers[1..], id);
    }
  }

  lemma ComputedAppend(saved: seq<Peer>, answers: seq<Peer>, a: Peer)
    ensures Computed(saved, answers + [a])
         == [a.(ipMac := KeptAddresses(saved, answers + [a], KeyOf(a)))]
            + Without(Computed(saved, answers), KeyOf(a))
  {
    forall p | p in answers && KeyOf(p) != KeyOf(a)
      ensures KeptBook(saved, answers)(KeyOf(p)) == KeptBook(saved, answers + [a])(KeyOf(p))
    {
      AddressesAppend(answers, a, KeyOf(p));
      ComesSecondAppend(answers, a, KeyOf(p));
    }
    ListedAppend(KeptBook(saved, answers), KeptBook(saved, answers + [a]), saved, answers, a);
  }

  // ---- the merged list has no duplicates ----

  lemma {:induction false} WithoutNone(peers: seq<Peer>, k: Key)
    requires forall p | p in peers :: KeyOf(p) != k
    ensures Without(peers, k) == peers
  {
    if peers != [] {
      WithoutNone(peers[1..], k);
    }
  }

  lemma WithoutOnly(front: seq<Peer>, p: Peer, back: seq<Peer>)
    requires forall q | q in front :: KeyOf(q) != KeyOf(p)
    requires forall q | q in back :: KeyOf(q) != KeyOf(p)
    ensures Without(front + ([p] + back), KeyOf(p)) == front + back
  {
    WithoutConcat(front, [p] + back, KeyOf(p));
    WithoutNone(front, KeyOf(p));
    WithoutNone(back, KeyOf(p));
    assert ([p] + back)[1..] == back;
  }

  lemma OthersDiffer(peers: seq<Peer>, pos: nat)
    requires Distinct(peers) && pos < |peers|
    ensures forall q | q in peers[..pos] :: KeyOf(q) != KeyOf(peers[pos])
    ensures forall q | q in peers[pos + 1..] :: KeyOf(q) != KeyOf(peers[pos])
  {
    forall q | q in peers[..pos]
      ensures KeyOf(q) != KeyOf(peers[pos])
    {
      var j :| 0 <= j < pos && peers[j] == q;
    }
    forall q | q in peers[pos + 1..]
      ensures KeyOf(q) != KeyOf(peers[pos])
    {
      var j :| pos < j < |peers| && peers[j] == q;
    }
  }

  lemma CutAt(peers: seq<Peer>, pos: nat)
    requires pos < |peers|
    ensures peers == peers[..pos] + ([peers[pos]] + peers[pos + 1..])
  {
  }

  lemma RemovalAt(peers: seq<Peer>, pos: nat)
    requires Distinct(peers) && pos < |peers|
    ensures Without(peers, KeyOf(peers[pos])) == peers[..pos] + peers[pos + 1..]
  {
    OthersDiffer(peers, pos);
    CutAt(peers, pos);
    WithoutOnly(peers[..pos], peers[pos], peers[pos + 1..]);
  }

  lemma NoPosition(peers: seq<Peer>, peer: Peer)
    requires Position(peers, peer) == |peers|
    ensures Without(peers, KeyOf(peer)) == peers
  {
    forall p | p in peers
      ensures KeyOf(p) != KeyOf(peer)
    {
      var i :| 0 <= i < |peers| && peers[i] == p;
      assert !IsSamePeer(peers[i], peer);
    }
    WithoutNone(peers, KeyOf(peer));
  }

  /** Removing the one record of a peer is what the loop does. */
  lemma WithoutIsRemoval(peers: seq<Peer>, peer: Peer)
    requires Distinct(peers)
    ensures var pos := Position(peers, peer);
            Without(peers, KeyOf(peer)) == if pos < |peers| then peers[..pos] + peers[pos + 1..] else peers
  {
    var pos := Position(peers, peer);
    if pos < |peers| {
      assert KeyOf(peers[pos]) == KeyOf(peer);
      RemovalAt(peers, pos);
    } else {
      NoPosition(peers, peer);
    }
  }

  lemma {:induction false} SilentKeys(saved: seq<Peer>, answers: seq<Peer>)
    ensures forall p | p in Silent(saved, answers) :: !p.online && KeyOf(p) !in Keys(answers) && KeyOf(p) in Keys(saved)
  {
    if saved != [] {
      SilentKeys(saved[1..], answers);
      KeysOfPrepend(saved[0], saved[1..]);
      assert saved == [saved[0]] + saved[1..];
    }
  }

  lemma {:induction false} SilentKept(saved: seq<Peer>, answers: seq<Peer>, q: Peer)
    requires q in saved && KeyOf(q) !in Keys(answers)
    ensures Offline(q) in Silent(saved, answers)
  {
    if q != saved[0] {
      assert q in saved[1..];
      SilentKept(saved[1..], answers, q);
    }
  }

  lemma {:induction false} SilentDistinct(saved: seq<Peer>, answers: seq<Peer>)
    requires Distinct(saved)
    ensures Distinct(Silent(saved, answers))
  {
    if saved != [] {
      var tail := saved[1..];
      assert forall i | 0 <= i < |tail| :: KeyOf(tail[i]) != KeyOf(saved[0]);
      SilentDistinct(tail, answers);
      SilentKeys(tail, answers);
      assert KeyOf(saved[0]) !in Keys(tail);
      assert forall i | 0 <= i < |Silent(tail, answers)| :: KeyOf(Silent(tail, answers)[i]) in Keys(tail);
    }
  }

  lemma {:induction false} LatestKeys(answers: seq<Peer>)
    ensures Keys(LatestFirst(answers)) == Keys(answers)
    ensures Distinct(LatestFirst(answers))
    ensures forall p | p in LatestFirst(answers) :: p in answers
  {
    if answers != [] {
      LatestKeys(answers[1..]);
      KeysOfPrepend(answers[0], answers[1..]);
      assert answers == [answers[0]] + answers[1..];
      var latest := LatestFirst(answers[1..]);
      if KeyOf(answers[0]) !in Keys(answers[1..]) {
        KeysOfAppend(latest, answers[0]);
        assert forall i | 0 <= i < |latest| :: latest[i] in latest && KeyOf(latest[i]) in Keys(latest);
      }
    }
  }

  lemma ListedDistinct(maps: Key -> map<string, string>, saved: seq<Peer>, answers: seq<Peer>)
    requires Distinct(saved)
    ensures Distinct(Listed(maps, saved, answers))
  {
    LatestKeys(answers);
    SilentKeys(saved, answers);
    SilentDistinct(saved, answers);
    var front, back := WithMaps(maps, LatestFirst(answers)), Silent(saved, answers);
    forall i, j | 0 <= i < |front| && 0 <= j < |back|
      ensures KeyOf(front[i]) != KeyOf(back[j])
    {
      assert LatestFirst(answers)[i] in LatestFirst(answers);
      assert KeyOf(front[i]) in Keys(LatestFirst(answers));
      assert back[j] in back;
    }
  }

  // ---- the loop computes the merged list ----

  lemma {:induction false} SilentOfNone(saved: seq<Peer>)
    ensures Silent(saved, []) == AllOffline(saved)
  {
    if saved != [] {
      SilentOfNone(saved[1..]);
      assert AllOffline(saved) == [Offline(saved[0])] + AllOffline(saved[1..]);
    }
  }

  lemma ComputedOfNone(saved: seq<Peer>)
    ensures Computed(saved, []) == AllOffline(saved)
  {
    SilentOfNone(saved);
    assert WithMaps(KeptBook(saved, []), LatestFirst([])) == [];
  }

  lemma {:induction false} NoAddresses(answers: seq<Peer>, k: Key)
    requires k !in Keys(answers)
    ensures Addresses(answers, k) == map[]
  {
    if answers != [] {
      KeysOfPrepend(answers[0], answers[1..]);
      assert answers == [answers[0]] + answers[1..];
      NoAddresses(answers[1..], k);
    }
  }

  /** The record of a key that has answered has its computed addresses. */
  lemma ResponderRecord(maps: Key -> map<string, string>, saved: seq<Peer>, answers: seq<Peer>, a: Peer)
    requires KeyOf(a) in Keys(answers)
    ensures var peers := Listed(maps, saved, answers);
            var pos := Position(peers, a);
            pos < |peers| && peers[pos].ipMac == maps(KeyOf(a))
  {
    LatestKeys(answers);
    var latest := LatestFirst(answers);
    var p :| p in latest && KeyOf(p) == KeyOf(a);
    var i :| 0 <= i < |latest| && latest[i] == p;
    var peers := Listed(maps, saved, answers);
    assert IsSamePeer(peers[i], a);
    assert peers[Position(peers, a)].ipMac == maps(KeyOf(latest[Position(peers, a)]));
  }

  /** The addresses of the first record of the same peer. */
  function AddressesAt(peers: seq<Peer>, a: Peer): map<string, string> {
    var pos := Position(peers, a);
    if pos < |peers| then peers[pos].ipMac else map[]
  }

  lemma AddressesFurther(p: Peer, peers: seq<Peer>, a: Peer)
    ensures AddressesAt([p] + peers, a) == if IsSamePeer(p, a) then p.ipMac else AddressesAt(peers, a)
  {
    assert ([p] + peers)[1..] == peers;
  }

  lemma {:induction false} SilentPosition(saved: seq<Peer>, answers: seq<Peer>, a: Peer)
    requires KeyOf(a) !in Keys(answers)
    ensures SavedAddresses(saved, KeyOf(a)) == AddressesAt(Silent(saved, answers), a)
  {
    if saved != [] {
      SilentPosition(saved[1..], answers, a);
      AddressesFurther(Offline(saved[0]), Silent(saved[1..], answers), a);
    }
  }

  lemma {:induction false} AddressesBehind(front: seq<Peer>, back: seq<Peer>, a: Peer)
    requires forall p | p in front :: !IsSamePeer(p, a)
    ensures AddressesAt(front + back, a) == AddressesAt(back, a)
  {
    if front == [] {
      assert front + back == back;
    } else {
      assert front + back == [front[0]] + (front[1..] + back);
      assert !IsSamePeer(front[0], a);
      AddressesBehind(front[1..], back, a);
      AddressesFurther(front[0], front[1..] + back, a);
    }
  }

  lemma NotAmongResponders(maps: Key -> map<string, string>, answers: seq<Peer>, a: Peer)
    requires KeyOf(a) !in Keys(answers)
    ensures forall p | p in WithMaps(maps, LatestFirst(answers)) :: !IsSamePeer(p, a)
  {
    LatestKeys(answers);
    var latest := LatestFirst(answers);
    var front := WithMaps(maps, latest);
    forall p | p in front
      ensures !IsSamePeer(p, a)
    {
      var i :| 0 <= i < |front| && front[i] == p;
      assert latest[i] in latest && KeyOf(latest[i]) in Keys(latest);
    }
  }

  /** The record of a key that has not answered is the saved one. */
  lemma SavedRecord(maps: Key -> map<string, string>, saved: seq<Peer>, answers: seq<Peer>, a: Peer)
    requires KeyOf(a) !in Keys(answers)
    ensures SavedAddresses(saved, KeyOf(a)) == AddressesAt(Listed(maps, saved, answers), a)
  {
    NotAmongResponders(maps, answers, a);
    AddressesBehind(WithMaps(maps, LatestFirst(answers)), Silent(saved, answers), a);
    SilentPosition(saved, answers, a);
  }

  /** The step on a list without duplicates, in terms of what it takes out. */
  lemma StepIsRemoval(peers: seq<Peer>, responded: set<string>, a: Peer)
    requires Distinct(peers) && a.online
    ensures var pos := Position(peers, a);
            Step(peers, responded, a) ==
            [if pos < |peers| && a.id in responded then a.(ipMac := a.ipMac + peers[pos].ipMac) else a]
            + Without(peers, KeyOf(a))
  {
    WithoutIsRemoval(peers, a);
  }

  /** What the step puts in front: the addresses of this discovery, and the saved ones of a key that comes second. */
  lemma FrontAddresses(saved: seq<Peer>, answers: seq<Peer>, a: Peer)
    ensures var peers := Computed(saved, answers);
            var pos := Position(peers, a);
            KeptAddresses(saved, answers + [a], KeyOf(a)) ==
            if pos < |peers| && a.id in Ids(answers) then a.ipMac + peers[pos].ipMac else a.ipMac
  {
    var k := KeyOf(a);
    var peers := Computed(saved, answers);
    AddressesAppend(answers, a, k);
    ComesSecondAppend(answers, a, k);
    if k in Keys(answers) {
      KeyHasId(answers, k);
      ResponderRecord(KeptBook(saved, answers), saved, answers, a);
      AddThree(a.ipMac, Addresses(answers, k), SavedAddresses(saved, k));
    } else {
      NoAddresses(answers, k);
      SavedRecord(KeptBook(saved, answers), saved, answers, a);
      AddNothing(a.ipMac);
    }
  }

  lemma AddThree(a: map<string, string>, b: map<string, string>, c: map<string, string>)
    ensures (a + b) + c == a + (b + c)
  {
  }

  lemma AddNothing(a: map<string, string>)
    ensures a + map[] == a
  {
  }

  lemma StepIsComputed(saved: seq<Peer>, answers: seq<Peer>, a: Peer)
    requires Distinct(saved) && a.online
    ensures Step(Computed(saved, answers), Ids(answers), a) == Computed(saved, answers + [a])
  {
    ComputedAppend(saved, answers, a);
    ListedDistinct(KeptBook(saved, answers), saved, answers);
    StepIsRemoval(Computed(saved, answers), Ids(answers), a);
    FrontAddresses(saved, answers, a);
  }

  /**
    * The loop's list, for any answers: responders by latest answer, then the silent peers in their old order; the
    * saved addresses of a key that comes second are kept.
    */
  lemma {:induction false} MergeIsComputed(saved: seq<Peer>, answers: seq<Peer>)
    requires Distinct(saved) && AllOnline(answers)
    ensures Merge(saved, answers) == Computed(saved, answers)
  {
    if answers == [] {
      ComputedOfNone(saved);
    } else {
      var n := |answers| - 1;
      assert answers == answers[..n] + [answers[n]];
      assert forall a | a in answers[..n] :: a in answers;
      MergeIsComputed(saved, answers[..n]);
      StepIsComputed(saved, answers[..n], answers[n]);
    }
  }

  /** Nothing new in b. */
  ghost predicate AddsNothing(a: map<string, string>, b: map<string, string>) {
    forall ip | ip in b :: ip in a && a[ip] == b[ip]
  }

  lemma SumUnchanged(a: map<string, string>, b: map<string, string>)
    ensures a + b == a <==> AddsNothing(a, b)
  {
    forall ip | ip in b
      ensures (a + b)[ip] == b[ip] && ip in a + b
    {
    }
    if AddsNothing(a, b) {
      assert (a + b).Keys == a.Keys;
    }
  }

  lemma SameMaps(f: Key -> map<string, string>, g: Key -> map<string, string>, saved: seq<Peer>,
                 answers: seq<Peer>)
    ensures Listed(f, saved, answers) == Listed(g, saved, answers)
        <==> forall k | k in Keys(answers) :: f(k) == g(k)
  {
    LatestKeys(answers);
    var latest := LatestFirst(answers);
    if Listed(f, saved, answers) == Listed(g, saved, answers) {
      forall k | k in Keys(answers)
        ensures f(k) == g(k)
      {
        var p :| p in latest && KeyOf(p) == k;
        var i :| 0 <= i < |latest| && latest[i] == p;
        assert Listed(f, saved, answers)[i].ipMac == f(k) && Listed(g, saved, answers)[i].ipMac == g(k);
      }
    } else {
      SameMapsSameList(f, g, saved, answers);
    }
  }

  lemma SameMapsSameList(f: Key -> map<string, string>, g: Key -> map<string, string>, saved: seq<Peer>,
                         answers: seq<Peer>)
    ensures (forall k | k in Keys(answers) :: f(k) == g(k)) ==>
              Listed(f, saved, answers) == Listed(g, saved, answers)
  {
    LatestKeys(answers);
    var latest := LatestFirst(answers);
    if forall k | k in Keys(answers) :: f(k) == g(k) {
      forall i | 0 <= i < |latest|
        ensures f(KeyOf(latest[i])) == g(KeyOf(latest[i]))
      {
        assert latest[i] in latest && KeyOf(latest[i]) in Keys(latest);
      }
      assert WithMaps(f, latest) == WithMaps(g, latest);
    }
  }

  /** The saved records of keys that come second hold only addresses of this discovery. */
  ghost predicate NothingKept(saved: seq<Peer>, answers: seq<Peer>) {
    forall k | k in Keys(answers) && ComesSecond(answers, k) ::
      AddsNothing(Addresses(answers, k), SavedAddresses(saved, k))
  }

  /** The list is what it is meant to be exactly when no key that comes second brings saved addresses back. */
  lemma MergeIsMerged(saved: seq<Peer>, answers: seq<Peer>)
    requires Distinct(saved) && AllOnline(answers)
    ensures Merge(saved, answers) == Merged(saved, answers) <==> NothingKept(saved, answers)
  {
    MergeIsComputed(saved, answers);
    SameMaps(KeptBook(saved, answers), AddressBook(answers), saved, answers);
    forall k | k in Keys(answers)
      ensures KeptBook(saved, answers)(k) == AddressBook(answers)(k)
          <==> ComesSecond(answers, k) ==> AddsNothing(Addresses(answers, k), SavedAddresses(saved, k))
    {
      SumUnchanged(Addresses(answers, k), SavedAddresses(saved, k));
    }
  }

  /** One user name for each id is enough. */
  lemma OneNameIsEnough(saved: seq<Peer>, answers: seq<Peer>)
    requires Distinct(saved) && AllOnline(answers) && OneNamePerId(answers)
    ensures Merge(saved, answers) == Merged(saved, answers)
  {
    forall k | k in Keys(answers)
      ensures FirstKey(answers, k.0) == Some(k)
    {
      var p :| p in answers && KeyOf(p) == k;
      FirstKeyAppend(answers, p, k.0);
      FirstKeyAnswers(answers, k.0);
      var q :| q in answers && KeyOf(q) == FirstKey(answers, k.0).value;
    }
    MergeIsMerged(saved, answers);
  }

  /** No duplicates, exactly the responders online, nobody lost, and what addresses every responder has. */
  lemma MergeIsSound(saved: seq<Peer>, answers: seq<Peer>)
    requires Distinct(saved) && AllOnline(answers)
    ensures var peers := Merge(saved, answers);
            && Distinct(peers)
            && Keys(peers) == Keys(saved) + Keys(answers)
            && forall p | p in peers ::
                 && (p.online <==> KeyOf(p) in Keys(answers))
                 && (p.online ==> p.ipMac == KeptAddresses(saved, answers, KeyOf(p)))
  {
    MergeIsComputed(saved, answers);
    ListedDistinct(KeptBook(saved, answers), saved, answers);
    ListedRecords(KeptBook(saved, answers), saved, answers);
    ListedKeys(KeptBook(saved, answers), saved, answers);
  }

  lemma ListedRecords(maps: Key -> map<string, string>, saved: seq<Peer>, answers: seq<Peer>)
    requires AllOnline(answers)
    ensures forall p | p in Listed(maps, saved, answers) ::
              && KeyOf(p) in Keys(saved) + Keys(answers)
              && (p.online <==> KeyOf(p) in Keys(answers))
              && (p.online ==> p.ipMac == maps(KeyOf(p)))
  {
    LatestKeys(answers);
    SilentKeys(saved, answers);
    var peers, latest, silent := Listed(maps, saved, answers), LatestFirst(answers), Silent(saved, answers);
    forall p | p in peers
      ensures p.online <==> KeyOf(p) in Keys(answers)
      ensures p.online ==> p.ipMac == maps(KeyOf(p))
      ensures KeyOf(p) in Keys(saved) + Keys(answers)
    {
      var i :| 0 <= i < |peers| && peers[i] == p;
      if i < |latest| {
        assert latest[i] in latest && KeyOf(p) == KeyOf(latest[i]);
      } else {
        assert p in silent;
      }
    }
  }

  lemma ListedKeys(maps: Key -> map<string, string>, saved: seq<Peer>, answers: seq<Peer>)
    ensures Keys(saved) + Keys(answers) <= Keys(Listed(maps, saved, answers))
  {
    LatestKeys(answers);
    var peers, latest, silent := Listed(maps, saved, answers), LatestFirst(answers), Silent(saved, answers);
    forall k | k in Keys(saved) + Keys(answers)
      ensures k in Keys(peers)
    {
      if k in Keys(answers) {
        var q :| q in latest && KeyOf(q) == k;
        var i :| 0 <= i < |latest| && latest[i] == q;
        assert peers[i] in peers && KeyOf(peers[i]) == k;
      } else {
        var q :| q in saved && KeyOf(q) == k;
        SilentKept(saved, answers, q);
        assert Offline(q) in silent && Offline(q) in peers;
      }
    }
  }

  // ---- every record, field by field ----

  /** No later answer comes from the same peer. */
  ghost predicate IsLatest(answers: seq<Peer>, i: nat) {
    && i < |answers|
    && forall j | i < j < |answers| :: answers[j].id != answers[i].id || answers[j].username != answers[i].username
  }

  lemma {:induction false} LatestIsLast(answers: seq<Peer>, p: Peer)
    requires p in LatestFirst(answers)
    ensures exists i: nat :: IsLatest(answers, i) && answers[i] == p
  {
    var rest := answers[1..];
    if p in LatestFirst(rest) {
      LatestIsLast(rest, p);
      var i: nat :| IsLatest(rest, i) && rest[i] == p;
      assert answers[i + 1] == p;
      forall j | i + 1 < j < |answers|
        ensures answers[j].id != p.id || answers[j].username != p.username
      {
        assert answers[j] == rest[j - 1];
      }
      assert IsLatest(answers, i + 1);
    } else {
      forall j | 0 < j < |answers|
        ensures KeyOf(answers[j]) != KeyOf(p)
      {
        assert answers[j] == rest[j - 1] && rest[j - 1] in rest;
      }
      assert IsLatest(answers, 0);
    }
  }

  lemma {:induction false} SilentRecord(saved: seq<Peer>, answers: seq<Peer>, p: Peer)
    requires p in Silent(saved, answers)
    ensures exists s :: s in saved && p == Peer(s.id, s.username, s.hostname, s.platform, false, s.ipMac)
  {
    if p in Silent(saved[1..], answers) {
      SilentRecord(saved[1..], answers, p);
      var s :| s in saved[1..] && p == Peer(s.id, s.username, s.hostname, s.platform, false, s.ipMac);
      assert s in saved;
    } else {
      assert saved[0] in saved;
    }
  }

  /**
    * A responder is listed online as its latest answer describes it; a silent peer keeps its name, host name,
    * platform and addresses from the saved list, and is offline.
    */
  lemma MergeRecords(saved: seq<Peer>, answers: seq<Peer>, p: Peer)
    requires Distinct(saved) && AllOnline(answers) && p in Merge(saved, answers)
    ensures KeyOf(p) in Keys(answers) ==>
              exists i: nat :: IsLatest(answers, i) && var a := answers[i];
                p == Peer(a.id, a.username, a.hostname, a.platform, true, KeptAddresses(saved, answers, KeyOf(a)))
    ensures KeyOf(p) !in Keys(answers) ==>
              exists s :: s in saved && p == Peer(s.id, s.username, s.hostname, s.platform, false, s.ipMac)
  {
    MergeIsComputed(saved, answers);
    var maps, latest, silent := KeptBook(saved, answers), LatestFirst(answers), Silent(saved, answers);
    var i :| 0 <= i < |latest| + |silent| && Listed(maps, saved, answers)[i] == p;
    LatestKeys(answers);
    if i < |latest| {
      assert latest[i] in latest && KeyOf(latest[i]) in Keys(latest);
      LatestIsLast(answers, latest[i]);
      assert p == latest[i].(ipMac := maps(KeyOf(latest[i])));
      assert latest[i].online;
    } else {
      assert p in silent;
      SilentKeys(saved, answers);
      SilentRecord(saved, answers, p);
    }
  }

  /** An answer as the receiving thread sends it: online, with the one address that it came from. */
  function Answer(id: string, username: string, ip: string, mac: string): Peer {
    Peer(id, username, "", "", true, map[ip := mac])
  }

  /** An id that answers under two user names brings a saved address back that nobody answered with. */
  lemma TwoNamesKeepOldAddresses(id: string, one: string, two: string, ip: string, old_: string, mac: string)
    requires one != two && ip != old_
    ensures var saved := [Answer(id, two, old_, mac).(online := false)];
            var answers := [Answer(id, one, ip, mac), Answer(id, two, ip, mac)];
            && Distinct(saved) && AllOnline(answers)
            && Merge(saved, answers) != Merged(saved, answers)
            && KeptAddresses(saved, answers, (id, two)) == map[ip := mac, old_ := mac]
  {
    var s, a, b := Answer(id, two, old_, mac).(online := false), Answer(id, one, ip, mac), Answer(id, two, ip, mac);
    SecondOfTwo(a, b);
    assert SavedAddresses([s], KeyOf(b)) == s.ipMac;
    assert old_ in s.ipMac && old_ !in b.ipMac;
    MergeIsMerged([s], [a, b]);
  }

  lemma SecondOfTwo(a: Peer, b: Peer)
    requires a.id == b.id && a.username != b.username
    ensures ComesSecond([a, b], KeyOf(b)) && Addresses([a, b], KeyOf(b)) == b.ipMac
  {
    assert [a, b][1..] == [b] && [b][1..] == [];
    assert Addresses([b], KeyOf(b)) == map[] + b.ipMac;
    assert b in [a, b];
  }
}
