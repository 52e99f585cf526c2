/** Reading the online states of a list of peers (src/client.rs). */
module OnlineStates {
  import opened Arithmetic
  import opened Wrappers

  function Power2(n: nat): (p: nat)
    ensures p > 0
  {
    if n == 0 then 1 else 2 * Power2(n - 1)
  }

  /** Bit 7 - i mod 8 of octet i / 8. */
  predicate IsOnline(states: Bytes, i: nat)
    requires i / 8 < |states|
  {
    states[i / 8] / Power2(7 - i % 8) % 2 == 1
  }

  predicate Enough(states: Bytes, n: nat) {
    n <= 8 * |states|
  }

  /** The ids whose bit is as asked, in order. */
  function Select(ids: seq<string>, states: Bytes, online: bool): seq<string>
    requires Enough(states, |ids|)
  {
    if ids == [] then []
    else
      var n := |ids| - 1;
      Select(ids[..n], states, online) + (if IsOnline(states, n) == online then [ids[n]] else [])
  }

  /** A reply is another message, or the states. */
  datatype Reply = Other | States(states: Bytes)

  /** The first of at most two replies that carries states; no reply at all is an error. */
  function FirstStates(replies: seq<Option<Reply>>, tries: nat): Option<Bytes> {
    if tries == 0 || replies == [] || replies[0].None? then None
    else if replies[0].value.States? then Some(replies[0].value.states)
    else FirstStates(replies[1..], tries - 1)
  }

  /** What a query gives: the split ids, an error, or the panic of an index beyond the states. */
  datatype Answer = Answered(onlines: seq<string>, offlines: seq<string>) | NoAnswer | OutOfRange

  function Decoded(ids: seq<string>, states: Bytes): Answer {
    if Enough(states, |ids|) then Answered(Select(ids, states, true), Select(ids, states, false)) else OutOfRange
  }

  method DecodeStates(ids: seq<string>, states: Bytes) returns (answer: Answer)
    ensures answer == Decoded(ids, states)
  {
    var onlines, offlines := [], [];
    for i := 0 to |ids|
      invariant Enough(states, i)
      invariant onlines == Select(ids[..i], states, true) && offlines == Select(ids[..i], states, false)
    {
      if i / 8 >= |states| {
        return OutOfRange;
      }
      SelectNext(ids, states, i);
      var bitValue := Power2(7 - i % 8);
      if states[i / 8] / bitValue % 2 == 1 {
        onlines := onlines + [ids[i]];
      } else {
        offlines := offlines + [ids[i]];
      }
    }
    assert ids[..|ids|] == ids;
    answer := Answered(onlines, offlines);
  }

  lemma SelectNext(ids: seq<string>, states: Bytes, i: nat)
    requires i < |ids| && i / 8 < |states|
    ensures Enough(states, i + 1)
    ensures forall online :: Select(ids[..i + 1], states, online)
                          == Select(ids[..i], states, online) + (if IsOnline(states, i) == online then [ids[i]] else [])
  {
    assert ids[..i + 1][..i] == ids[..i];
  }

  /** When the server cannot be reached everybody counts as offline. */
  function Queried(ids: seq<string>, reachable: bool, replies: seq<Option<Reply>>): Answer {
    if !reachable then Answered([], ids)
    else
      match FirstStates(replies, 2)
      case None => NoAnswer
      case Some(states) => Decoded(ids, states)
  }

  method QueryOnlineStates(ids: seq<string>, reachable: bool, replies: seq<Option<Reply>>) returns (answer: Answer)
    ensures answer == Queried(ids, reachable, replies)
  {
    if !reachable {
      return Answered([], ids);
    }
    for i := 0 to 2
      invariant i <= |replies| && FirstStates(replies, 2) == FirstStates(replies[i..], 2 - i)
    {
      if i == |replies| || replies[i].None? {
        return NoAnswer;
      }
      if replies[i].value.States? {
        answer := DecodeStates(ids, replies[i].value.states);
        return;
      }
      assert replies[i..][1..] == replies[i + 1..];
    }
    return NoAnswer;
  }

  lemma PartitionNext(onlines: seq<string>, offlines: seq<string>, ids: seq<string>, id: string, online: bool)
    requires multiset(onlines) + multiset(offlines) == multiset(ids)
    ensures multiset(onlines + (if online then [id] else [])) + multiset(offlines + (if online then [] else [id]))
         == multiset(ids + [id])
  {
    assert onlines + [] == onlines && offlines + [] == offlines;
  }

  /** The two lists together hold exactly the ids. */
  lemma {:induction false} SelectPartitions(ids: seq<string>, states: Bytes)
    requires Enough(states, |ids|)
    ensures multiset(Select(ids, states, true)) + multiset(Select(ids, states, false)) == multiset(ids)
  {
    if ids != [] {
      var n := |ids| - 1;
      SelectPartitions(ids[..n], states);
      assert ids == ids[..n] + [ids[n]];
      PartitionNext(Select(ids[..n], states, true), Select(ids[..n], states, false), ids[..n], ids[n],
                    IsOnline(states, n));
    }
  }

  // ---- any most-significant-bit-first packing is undone ----

  /** One octet from up to eight flags, the first one in the highest bit. */
  function PackOctet(flags: seq<bool>): (b: nat)
    requires |flags| <= 8
    ensures b < Power2(|flags|)
  {
    if flags == [] then 0
    else 2 * PackOctet(flags[..|flags| - 1]) + (if flags[|flags| - 1] then 1 else 0)
  }

  lemma EightBits()
    ensures Power2(8) == 256
  {
    assert Power2(4) == 16;
    assert Power2(6) == 64;
  }

  function Padded(flags: seq<bool>): (p: seq<bool>)
    requires |flags| <= 8
    ensures |p| == 8
  {
    flags + seq(8 - |flags|, _ => false)
  }

  function Pack(flags: seq<bool>): Bytes {
    if flags == [] then []
    else if |flags| <= 8 then
      EightBits();
      [PackOctet(Padded(flags))]
    else
      EightBits();
      [PackOctet(Padded(flags[..8]))] + Pack(flags[8..])
  }

  lemma LastBit(front: nat, flag: bool)
    ensures var x := 2 * front + (if flag then 1 else 0); x / 2 == front && (x % 2 == 1) == flag
  {
  }

  lemma {:induction false} OctetBit(flags: seq<bool>, i: nat)
    requires |flags| <= 8 && i < |flags|
    ensures (PackOctet(flags) / Power2(|flags| - 1 - i) % 2 == 1) == flags[i]
  {
    var n := |flags| - 1;
    var front := PackOctet(flags[..n]);
    LastBit(front, flags[n]);
    if i < n {
      OctetBit(flags[..n], i);
      EarlierBit(PackOctet(flags), front, n - 1 - i);
    } else {
      LowestBit(PackOctet(flags));
    }
  }

  lemma LowestBit(x: nat)
    ensures x / Power2(0) == x
  {
  }

  lemma EarlierBit(x: nat, front: nat, k: nat)
    requires x / 2 == front
    ensures x / Power2(k + 1) == front / Power2(k)
  {
    HalveThenDivide(x, Power2(k));
  }

  lemma HalveThenDivide(x: nat, d: nat)
    requires d > 0
    ensures x / (2 * d) == x / 2 / d
  {
    var q, r := x / 2 / d, x / 2 % d;
    assert x / 2 == q * d + r;
    assert x == 2 * (x / 2) + x % 2;
    assert x == q * (2 * d) + (2 * r + x % 2);
    QuotientUnique(x, 2 * d, q, 2 * r + x % 2);
  }

  lemma LaterOctet(flags: seq<bool>, i: nat)
    requires |flags| > 8 && i >= 8
    requires (i - 8) / 8 < |Pack(flags[8..])|
    ensures i / 8 < |Pack(flags)| && Pack(flags)[i / 8] == Pack(flags[8..])[(i - 8) / 8]
    ensures i % 8 == (i - 8) % 8
  {
    assert i / 8 == (i - 8) / 8 + 1;
  }

  lemma {:induction false} PackedBit(flags: seq<bool>, i: nat)
    requires i < |flags|
    ensures Enough(Pack(flags), |flags|) && i / 8 < |Pack(flags)| && IsOnline(Pack(flags), i) == flags[i]
  {
    if |flags| <= 8 {
      OctetBit(Padded(flags), i);
    } else if i < 8 {
      OctetBit(Padded(flags[..8]), i);
      PackedBit(flags[8..], 0);
    } else {
      PackedBit(flags[8..], i - 8);
      LaterOctet(flags, i);
    }
  }

  function Chosen(ids: seq<string>, flags: seq<bool>, online: bool): seq<string>
    requires |flags| >= |ids|
  {
    if ids == [] then []
    else
      var n := |ids| - 1;
      Chosen(ids[..n], flags, online) + (if flags[n] == online then [ids[n]] else [])
  }

  /** Decoding a packed list of flags splits the ids by those flags. */
  lemma {:induction false} PackRoundTrip(ids: seq<string>, flags: seq<bool>, online: bool)
    requires |flags| >= |ids|
    ensures Enough(Pack(flags), |ids|) && Select(ids, Pack(flags), online) == Chosen(ids, flags, online)
  {
    if ids != [] {
      var n := |ids| - 1;
      PackedBit(flags, n);
      PackRoundTrip(ids[..n], flags, online);
    }
  }

  lemma Replies(ids: seq<string>, states: Bytes, more: seq<Option<Reply>>)
    ensures Queried(ids, true, [Some(States(states))] + more) == Decoded(ids, states)
    ensures Queried(ids, true, [Some(Other), Some(States(states))] + more) == Decoded(ids, states)
  {
    SecondReply(Some(States(states)), more);
    assert ([Some(States(states))] + more)[0] == Some(States(states));
  }

  lemma SecondReply(second: Option<Reply>, more: seq<Option<Reply>>)
    ensures FirstStates([Some(Other), second] + more, 2) ==
            if second.Some? && second.value.States? then Some(second.value.states) else None
  {
    var rest := ([Some(Other), second] + more)[1..];
    assert rest[0] == second;
    assert FirstStates(rest[1..], 0) == None;
  }

  /** The first or the second reply may carry the states; they name those who are online first. */
  lemma PackedAnswer(ids: seq<string>, flags: seq<bool>, more: seq<Option<Reply>>)
    requires |flags| >= |ids|
    ensures Queried(ids, true, [Some(States(Pack(flags)))] + more) ==
            Answered(Chosen(ids, flags, true), Chosen(ids, flags, false))
    ensures Queried(ids, true, [Some(Other), Some(States(Pack(flags)))] + more) ==
            Answered(Chosen(ids, flags, true), Chosen(ids, flags, false))
  {
    PackRoundTrip(ids, flags, true);
    PackRoundTrip(ids, flags, false);
    Replies(ids, Pack(flags), more);
  }

  /** A missing reply, or two other messages, give no answer; too few octets give an index out of range. */
  lemma OtherAnswers(ids: seq<string>, states: Bytes, more: seq<Option<Reply>>)
    ensures Queried(ids, true, []) == Queried(ids, true, [None] + more) == NoAnswer
    ensures Queried(ids, true, [Some(Other)]) == Queried(ids, true, [Some(Other), None] + more) == NoAnswer
    ensures Queried(ids, true, [Some(Other), Some(Other)] + more) == NoAnswer
    ensures |ids| > 8 * |states| ==> Queried(ids, true, [Some(States(states))] + more) == OutOfRange
    ensures Queried(ids, false, more) == Answered([], ids)
  {
    SecondReply(None, more);
    SecondReply(Some(Other), more);
    assert [Some(Other)][1..] == [];
    Replies(ids, states, more);
  }
}
