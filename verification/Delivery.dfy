/** When a received packet is handed up, and what the packets of several payloads in order amount to. */
module Deliveries {
  import opened Bits
  import opened Options
  import opened Packets
  import opened SiblingBodies
  import opened Endpoints
  import opened Network
  import opened Reassembly
  import Sending = SendProofs

  /**
   * A whole packet is handed up exactly if its number is the next one.  Otherwise it is dropped for good, although its
   * number joins the acks that make the sender forget it: eventual delivery does not follow.
   */
  lemma HandedUpExactly(e: Endpoint, p: Packet, acks: set<u32>)
    requires e.avail == [] && !p.HasSiblings()
    ensures Fits(e, p)
    ensures var (e', r) := RecvPacket(PushRecvPacket(e, p, acks));
            && (r == Some(p) <==> p.seqNo == e.recvSeq + 1) && (r == None <==> p.seqNo != e.recvSeq + 1)
            && (e.recvSeq == SEQUENCE_SPACE - 1 ==> r == None)
            && e'.avail == [] && p.seqNo in e'.recvAcks && e'.siblings == e.siblings
            && e'.recvSeq == e.recvSeq + (if r.Some? then 1 else 0)
  {
  }

  // ---- the queue of available packets ----

  /** Undefined stands for looking at the front of an empty queue. */
  datatype Popped = Undefined | Nothing | Popped(packet: Packet, left: seq<Packet>)

  /**
   * The duplicate loop on any sorted queue: after a duplicate one more packet is dropped before the front is looked at.
   */
  function SkipDuplicates(pkt: Packet, left: seq<Packet>, recvSeq: u32): Popped
    decreases |left|
  {
    if pkt.seqNo > recvSeq then Popped(pkt, left)
    else if left == [] then Nothing
    else if |left| == 1 then Undefined
    else SkipDuplicates(left[1], left[1..], recvSeq)
  }

  /** With at most one packet in the queue the loop is sound, and it is what RecvPacket assumes. */
  lemma OneIsSound(e: Endpoint)
    requires |e.avail| == 1
    ensures var r := SkipDuplicates(e.avail[0], [], e.recvSeq);
            && r != Undefined
            && RecvPacket(e).1 == if r.Popped? && r.packet.seqNo == Wrap32(e.recvSeq + 1) then Some(r.packet) else None
  {
  }

  /** With two it is not: a duplicate in front of any packet leaves nothing to look at. */
  lemma TwoAreNot(d: Packet, q: Packet, recvSeq: u32)
    ensures SkipDuplicates(d, [q], recvSeq) == Undefined <==> d.seqNo <= recvSeq
  {
  }

  /** A part whose slot is taken is dropped, whatever it holds; its number is acked and its acks are processed. */
  lemma DuplicateIgnored(e: Endpoint, p: Packet, acks: set<u32>)
    requires p.HasSiblings() && p.sibPos < |StorageFor(e, p)| && StorageFor(e, p)[p.sibPos].Some?
    ensures var e' := PushRecvPacket(e, p, acks);
            && e'.siblings == e.siblings && e'.avail == e.avail && e'.recvSeq == e.recvSeq
            && p.seqNo in e'.recvAcks
  {
    hide Unacked;
    assert e.siblings[p.sibId := e.siblings[p.sibId]] == e.siblings;
  }

  /** The sender forgets a packet as soon as its number is acked, delivered or not. */
  lemma AckedIsForgotten(e: Endpoint, p: Packet, acks: set<u32>, q: Packet)
    requires Fits(e, p) && q.seqNo in acks
    ensures q !in PushRecvPacket(e, p, acks).reliable && q !in PushRecvPacket(e, p, acks).retransmit
  {
  }

  // ---- packets in order ----

  datatype Payload = Payload(body: Body, isReliable: bool)

  function SendAll(e: Endpoint, ps: seq<Payload>): Endpoint
    requires forall p :: p in ps ==> |p.body.bytes| <= LARGEST_BODY
    decreases |ps|
  {
    if ps == [] then e else SendAll(SendPacket(e, ps[0].body, ps[0].isReliable), ps[1..])
  }

  /** How many packets the payloads become. */
  function PacketCount(ps: seq<Payload>): nat
    decreases |ps|
  {
    if ps == [] then 0 else (if IsLarge(ps[0].body) then |Split(ps[0].body)| else 1) + PacketCount(ps[1..])
  }

  /** Packets received one after the other. */
  function FeedAll(e: Endpoint, ps: seq<Packet>): Fed
    requires e.avail == []
    decreases |ps|
  {
    if ps == [] then Fed(e, [], false)
    else if !Fits(e, ps[0]) || !MergesSafely(e, ps[0]) then Fed(e, [], true)
    else
      var (e', res) := RecvPacket(PushRecvPacket(e, ps[0], {}));
      var rest := FeedAll(e', ps[1..]);
      rest.(handedUp := (if res.Some? then [res.value] else []) + rest.handedUp)
  }

  /** Packets as the other side parses them: the reliable flag is not transmitted. */
  function AsReceived(ps: seq<Packet>): (r: seq<Packet>)
    ensures |r| == |ps| && forall i :: 0 <= i < |ps| ==> r[i] == ps[i].(reliable := true)
  {
    seq(|ps|, i requires 0 <= i < |ps| => ps[i].(reliable := true))
  }

  /** At most one packet is ever available, and none between calls. */
  lemma OneAtMost(e: Endpoint, p: Packet, acks: set<u32>)
    requires e.avail == [] && Fits(e, p)
    ensures var e1 := PushRecvPacket(e, p, acks); |e1.avail| <= 1 && RecvPacket(e1).0.avail == []
  {
  }

  lemma {:induction false} FedAvail(e: Endpoint, ps: seq<Packet>)
    requires e.avail == []
    ensures FeedAll(e, ps).e.avail == []
    decreases |ps|
  {
    hide Fits, MergesSafely, PushRecvPacket;
    if ps != [] && Fits(e, ps[0]) && MergesSafely(e, ps[0]) {
      OneAtMost(e, ps[0], {});
      FedAvail(RecvPacket(PushRecvPacket(e, ps[0], {})).0, ps[1..]);
    }
  }

  lemma {:induction false} FeedConcat(e: Endpoint, a: seq<Packet>, b: seq<Packet>)
    requires e.avail == [] && !FeedAll(e, a).crashed
    ensures FeedAll(e, a).e.avail == []
    ensures var x := FeedAll(e, a);
            var y := FeedAll(x.e, b);
            FeedAll(e, a + b) == Fed(y.e, x.handedUp + y.handedUp, y.crashed)
    decreases |a|
  {
    hide Fits, MergesSafely, PushRecvPacket, RecvPacket;
    FedAvail(e, a);
    if a == [] {
      assert a + b == b;
    } else {
      assert (a + b)[1..] == a[1..] + b;
      OneAtMost(e, a[0], {});
      FeedConcat(RecvPacket(PushRecvPacket(e, a[0], {})).0, a[1..], b);
    }
  }

  /** The receiver is up to date with everything numbered so far and holds no part of anything. */
  predicate UpToDate(e: Endpoint, n: nat) {
    e.avail == [] && e.siblings == map[] && e.recvSeq == n
  }

  /** The fragments of a payload from k on, in order, when those in front are held. */
  lemma {:induction false} GroupInOrder(e: Endpoint, parts: seq<Packet>, body: Body, id: u32, first: nat,
      isReliable: bool, k: nat)
    requires Fragments(parts, body, id, first, isReliable) && k < |parts| && Holding(e, parts, id, UpTo(k))
    requires e.recvSeq == first - 1 && e.siblings.Keys <= {id}
    ensures var r := FeedAll(e, parts[k..]);
            !r.crashed && r.handedUp == [parts[0].(body := body)] && UpToDate(r.e, first + |parts| - 1)
    decreases |parts| - k
  {
    hide PushRecvPacket, Fits, MergesSafely, SlotsOf, UpTo, Wrap32, Fragments;
    Arrives(e, parts, body, id, first, isReliable, UpTo(k), k, {});
    var e1 := PushRecvPacket(e, parts[k], {});
    NextUpTo(k, |parts|);
    assert parts[k..][0] == parts[k] && parts[k..][1..] == parts[k + 1..];
    if k + 1 == |parts| {
      assert Fragments(parts, body, id, first, isReliable);
      FirstOfFragments(parts, body, id, first, isReliable);
      HandsUp(e1, parts[0].(body := body), first, |parts|);
    } else {
      GroupInOrder(e1, parts, body, id, first, isReliable, k + 1);
    }
  }

  lemma FirstOfFragments(parts: seq<Packet>, body: Body, id: u32, first: nat, isReliable: bool)
    requires Fragments(parts, body, id, first, isReliable) && parts != []
    ensures parts[0].seqNo == first && parts[0].numSibs == |parts| && 1 <= first && first + |parts| <= SEQUENCE_SPACE
  {
  }

  lemma NextUpTo(k: nat, n: nat)
    requires k < n
    ensures UpTo(k) + {k} == UpTo(k + 1) && (UpTo(k + 1) == UpTo(n) <==> k + 1 == n)
  {
    assert n - 1 in UpTo(n);
  }

  /** One payload, sent by a side with room for it and received packet by packet. */
  lemma OnePayload(e: Endpoint, r: Endpoint, p: Payload)
    requires |p.body.bytes| <= LARGEST_BODY && UpToDate(r, e.sendSeq)
    requires |e.sendQueue| + PacketCount([p]) <= QUEUE_CAPACITY && e.sendSeq + PacketCount([p]) < SEQUENCE_SPACE
    ensures var e' := SendPacket(e, p.body, p.isReliable);
            && e'.sendSeq == e.sendSeq + PacketCount([p]) && |e'.sendQueue| == |e.sendQueue| + PacketCount([p])
            && e.sendQueue <= e'.sendQueue
            && var f := FeedAll(r, AsReceived(e'.sendQueue[|e.sendQueue|..]));
               !f.crashed && |f.handedUp| == 1 && f.handedUp[0].body == p.body && UpToDate(f.e, e'.sendSeq)
  {
    hide Split, Fragments, Fits, MergesSafely, PushRecvPacket;
    CountOne(p);
    var e' := SendPacket(e, p.body, p.isReliable);
    if IsLarge(p.body) {
      SentFragments(e, p.body, p.isReliable);
      var queued := e'.sendQueue[|e.sendQueue|..];
      SentCount(e, p);
      var id := Wrap32(e.siblingId + 1);
      FragmentsReceived(queued, p.body, id, e.sendSeq + 1, p.isReliable);
      var parts := AsReceived(queued);
      assert UpTo(0) == {} && parts[0..] == parts;
      NoneHeld(r, parts, id);
      GroupInOrder(r, parts, p.body, id, e.sendSeq + 1, true, 0);
    } else {
      var q := Part(p.body, 0, 0, 0, true).(seqNo := e.sendSeq + 1);
      assert AsReceived(e'.sendQueue[|e.sendQueue|..]) == [q];
      OneWhole(r, q);
    }
  }

  lemma CountOne(p: Payload)
    ensures PacketCount([p]) == if IsLarge(p.body) then |Split(p.body)| else 1
  {
    assert PacketCount([]) == 0;
  }

  lemma FragmentsReceived(parts: seq<Packet>, body: Body, id: u32, first: nat, isReliable: bool)
    requires Fragments(parts, body, id, first, isReliable)
    ensures parts != [] && Fragments(AsReceived(parts), body, id, first, true)
  {
    SplitParts(body);
  }

  lemma NoneHeld(r: Endpoint, parts: seq<Packet>, id: u32)
    requires r.avail == [] && r.siblings == map[] && parts != []
    ensures Holding(r, parts, id, {})
  {
    assert 0 in UpTo(|parts|);
  }

  lemma SentCount(e: Endpoint, p: Payload)
    requires IsLarge(p.body) && |p.body.bytes| <= LARGEST_BODY
    requires |e.sendQueue| + |Split(p.body)| <= QUEUE_CAPACITY && e.sendSeq + |Split(p.body)| < SEQUENCE_SPACE
    ensures var e' := SendPacket(e, p.body, p.isReliable);
            e'.sendSeq == e.sendSeq + |Split(p.body)| && |e'.sendQueue| == |e.sendQueue| + |Split(p.body)|
  {
    hide Split;
    SplitParts(p.body);
    Sending.SendQueues(e, p.body, p.isReliable);
    var id := Wrap32(e.siblingId + 1);
    var pieces := Parts(p.body, id, p.isReliable);
    assert pieces[..|pieces|] == pieces;
    Sending.QueuedPackets(e.(siblingId := id), pieces);
  }

  lemma OneWhole(r: Endpoint, q: Packet)
    requires q.seqNo >= 1 && UpToDate(r, q.seqNo - 1) && !q.HasSiblings()
    ensures var f := FeedAll(r, [q]); !f.crashed && f.handedUp == [q] && UpToDate(f.e, q.seqNo)
  {
    hide Unacked;
    assert [q][1..] == [];
    var e' := RecvPacket(PushRecvPacket(r, q, {})).0;
    assert FeedAll(e', []) == Fed(e', [], false);
  }

  function BodiesOf(ps: seq<Packet>): (r: seq<Body>)
    ensures |r| == |ps|
  {
    seq(|ps|, i requires 0 <= i < |ps| => ps[i].body)
  }

  function PayloadsOf(ps: seq<Payload>): (r: seq<Body>)
    ensures |r| == |ps|
  {
    seq(|ps|, i requires 0 <= i < |ps| => ps[i].body)
  }

  /**
   * The packets queued for payloads that fit the queue, received in order, are handed up as these payloads, bit for
   * bit.
   */
  lemma {:induction false} InOrderFeed(e: Endpoint, r: Endpoint, ps: seq<Payload>)
    requires UpToDate(r, e.sendSeq) && forall p :: p in ps ==> |p.body.bytes| <= LARGEST_BODY
    requires |e.sendQueue| + PacketCount(ps) <= QUEUE_CAPACITY && e.sendSeq + PacketCount(ps) < SEQUENCE_SPACE
    ensures var e' := SendAll(e, ps);
            && e.sendQueue <= e'.sendQueue
            && var f := FeedAll(r, AsReceived(e'.sendQueue[|e.sendQueue|..]));
               !f.crashed && BodiesOf(f.handedUp) == PayloadsOf(ps) && UpToDate(f.e, e'.sendSeq)
    decreases |ps|
  {
    hide Split, SendPacket, FeedAll;
    if ps == [] {
      NothingFed(e, r);
    } else {
      var p, rest := ps[0], ps[1..];
      CountFirst(p, rest);
      assert ps == [p] + rest;
      OnePayload(e, r, p);
      var e1 := SendPacket(e, p.body, p.isReliable);
      var f1 := FeedAll(r, AsReceived(e1.sendQueue[|e.sendQueue|..]));
      InOrderFeed(e1, f1.e, rest);
      Joined(e.sendQueue, e1.sendQueue, SendAll(e, ps).sendQueue, r);
      BodiesJoin(f1.handedUp, FeedAll(f1.e, AsReceived(SendAll(e, ps).sendQueue[|e1.sendQueue|..])).handedUp, p, rest);
    }
  }

  lemma BodiesJoin(a: seq<Packet>, b: seq<Packet>, p: Payload, rest: seq<Payload>)
    requires |a| == 1 && a[0].body == p.body && BodiesOf(b) == PayloadsOf(rest)
    ensures BodiesOf(a + b) == PayloadsOf([p] + rest)
  {
    assert BodiesOf(a + b) == [p.body] + BodiesOf(b);
    assert PayloadsOf([p] + rest) == [p.body] + PayloadsOf(rest);
  }

  lemma CountFirst(p: Payload, rest: seq<Payload>)
    ensures PacketCount([p] + rest) == PacketCount([p]) + PacketCount(rest)
  {
    CountOne(p);
    assert ([p] + rest)[1..] == rest;
  }

  lemma NothingFed(e: Endpoint, r: Endpoint)
    requires r.avail == []
    ensures FeedAll(r, AsReceived(e.sendQueue[|e.sendQueue|..])) == Fed(r, [], false)
  {
  }

  lemma Joined(q0: seq<Packet>, q1: seq<Packet>, q2: seq<Packet>, r: Endpoint)
    requires q0 <= q1 <= q2 && r.avail == [] && !FeedAll(r, AsReceived(q1[|q0|..])).crashed
    ensures FeedAll(r, AsReceived(q1[|q0|..])).e.avail == []
    ensures var x := FeedAll(r, AsReceived(q1[|q0|..]));
            var y := FeedAll(x.e, AsReceived(q2[|q1|..]));
            FeedAll(r, AsReceived(q2[|q0|..])) == Fed(y.e, x.handedUp + y.handedUp, y.crashed)
  {
    assert AsReceived(q2[|q0|..]) == AsReceived(q1[|q0|..]) + AsReceived(q2[|q1|..]);
    FeedConcat(r, AsReceived(q1[|q0|..]), AsReceived(q2[|q1|..]));
  }
}
