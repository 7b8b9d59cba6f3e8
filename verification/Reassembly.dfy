/** The fragments of a split payload, fed to a receiver in any order and any number of times. */
module Reassembly {
  import opened Bits
  import opened Options
  import opened Packets
  import opened SiblingBodies
  import opened Endpoints
  import Network
  import Sending = SendProofs

  /** One arriving datagram: which fragment it carries, and the acks that travel with it. */
  datatype Arrival = Arrival(part: nat, acks: set<u32>)

  /** What the receiver handed up; crashed records an access out of bounds. */
  datatype Fed = Fed(e: Endpoint, handedUp: seq<Packet>, crashed: bool)

  function Feed(e: Endpoint, parts: seq<Packet>, order: seq<Arrival>): Fed
    requires e.avail == [] && forall a :: a in order ==> a.part < |parts|
    decreases |order|
  {
    if order == [] then Fed(e, [], false)
    else
      var p := parts[order[0].part];
      if !Fits(e, p) || !MergesSafely(e, p) then Fed(e, [], true)
      else
        var (e', res) := RecvPacket(PushRecvPacket(e, p, order[0].acks));
        var rest := Feed(e', parts, order[1..]);
        rest.(handedUp := (if res.Some? then [res.value] else []) + rest.handedUp)
  }

  /** The numbered fragments of a payload. */
  ghost predicate Fragments(parts: seq<Packet>, body: Body, id: u32, first: nat, isReliable: bool) {
    && body.WholeBytes() > 0 && |body.bytes| <= LARGEST_BODY
    && |parts| == |Split(body)| && 1 <= first && first + |parts| <= Network.SEQUENCE_SPACE
    && forall j :: 0 <= j < |parts| ==> parts[j] == Packet(first + j, |parts|, id, j, isReliable, false, Split(body)[j])
  }

  function Positions(order: seq<Arrival>): set<nat> {
    set a | a in order :: a.part
  }

  function UpTo(n: nat): (r: set<nat>)
    ensures forall k: nat :: k in r <==> k < n
  {
    if n == 0 then {} else UpTo(n - 1) + {n - 1}
  }

  function SlotsOf(parts: seq<Packet>, seen: set<nat>): (r: Storage)
    ensures |r| == |parts|
  {
    seq(|parts|, j requires 0 <= j < |parts| => if j in seen then Some(parts[j]) else None)
  }

  /** The receiver holds exactly the fragments at the positions in seen, and at least one is missing. */
  ghost predicate Holding(e: Endpoint, parts: seq<Packet>, id: u32, seen: set<nat>) {
    && e.avail == [] && seen < UpTo(|parts|)
    && if id in e.siblings then e.siblings[id] == SlotsOf(parts, seen) else seen == {}
  }

  lemma HeldStorage(e: Endpoint, parts: seq<Packet>, id: u32, seen: set<nat>, k: nat)
    requires Holding(e, parts, id, seen) && k < |parts| && parts[k].sibId == id && parts[k].numSibs == |parts|
    ensures StorageFor(e, parts[k]) == SlotsOf(parts, seen)
  {
    if id !in e.siblings { assert SlotsOf(parts, {}) == EmptyStorage(|parts|); }
  }

  lemma OneMoreSlot(parts: seq<Packet>, seen: set<nat>, k: nat)
    requires k < |parts| && seen <= UpTo(|parts|)
    ensures SlotsOf(parts, seen)[k := Some(parts[k])] == SlotsOf(parts, seen + {k})
    ensures AllAvailable(SlotsOf(parts, seen)) <==> seen == UpTo(|parts|)
    ensures seen + {k} <= UpTo(|parts|)
  {
    var s := SlotsOf(parts, seen);
    if AllAvailable(s) {
      forall j: nat | j < |parts|
        ensures j in seen
      {
        assert s[j].Some?;
      }
    }
  }

  /** All fragments together are the payload, under the header of the first one. */
  lemma AllTogether(parts: seq<Packet>, body: Body, id: u32, first: nat, isReliable: bool)
    requires Fragments(parts, body, id, first, isReliable)
    ensures var s := SlotsOf(parts, UpTo(|parts|));
            && parts != [] && AllAvailable(s) && MergeFits(0, Bodies(s)) && MergedPacket(s) == parts[0].(body := body)
  {
    hide MergeFits, Merge, Split;
    var s := SlotsOf(parts, UpTo(|parts|));
    SplitParts(body);
    assert Bodies(s) == Split(body);
    SplitFits(0, body);
    MergeSplit(body);
  }

  /** One more fragment arrives. */
  lemma {:induction false} Arrives(e: Endpoint, parts: seq<Packet>, body: Body, id: u32, first: nat, isReliable: bool,
                                    seen: set<nat>, k: nat, acks: set<u32>)
    requires Fragments(parts, body, id, first, isReliable) && Holding(e, parts, id, seen) && k < |parts|
    ensures Fits(e, parts[k]) && MergesSafely(e, parts[k])
    ensures var e' := PushRecvPacket(e, parts[k], acks);
            && e'.recvSeq == e.recvSeq && e'.siblings.Keys <= e.siblings.Keys + {id}
            && if seen + {k} == UpTo(|parts|) then e'.avail == [parts[0].(body := body)] && id !in e'.siblings
               else Holding(e', parts, id, seen + {k})
  {
    hide Split, Bodies, MergedPacket, MergeFits, SlotsOf, Unacked;
    HeldStorage(e, parts, id, seen, k);
    OneMoreSlot(parts, seen, k);
    OneMoreSlot(parts, seen + {k}, k);
    AllTogether(parts, body, id, first, isReliable);
    SlotAt(parts, seen, k);
    if k in seen { assert seen + {k} == seen; }
  }

  lemma SlotAt(parts: seq<Packet>, seen: set<nat>, k: nat)
    requires k < |parts|
    ensures SlotsOf(parts, seen)[k].Some? <==> k in seen
  {
  }

  /** The merged packet is handed up once; a later one is a duplicate. */
  lemma HandsUp(e: Endpoint, p: Packet, first: nat, n: nat)
    requires e.avail == [p] && p.seqNo == first && p.numSibs == n && 1 <= first && 1 <= n
             && first + n <= Network.SEQUENCE_SPACE
    requires e.recvSeq == first - 1 || e.recvSeq == first + n - 1
    ensures RecvPacket(e) == (e.(avail := [], recvSeq := first + n - 1), if e.recvSeq < first then Some(p) else None)
  {
  }

  /** From any set of fragments already held. */
  lemma {:induction false} Gather(e: Endpoint, parts: seq<Packet>, body: Body, id: u32, first: nat, isReliable: bool,
                                   seen: set<nat>, order: seq<Arrival>)
    requires Fragments(parts, body, id, first, isReliable) && Holding(e, parts, id, seen)
    requires e.recvSeq == first - 1 || e.recvSeq == first + |parts| - 1
    requires forall a :: a in order ==> a.part < |parts|
    ensures var r := Feed(e, parts, order);
            && !r.crashed
            && r.handedUp
               == (if e.recvSeq < first && seen + Positions(order) == UpTo(|parts|)
                   then [parts[0].(body := body)] else [])
            && r.e.recvSeq
               == (if e.recvSeq < first && seen + Positions(order) != UpTo(|parts|) then first - 1
                   else first + |parts| - 1)
    decreases |order|
  {
    hide PushRecvPacket, Fits, MergesSafely, SlotsOf, UpTo, Wrap32;
    AllTogether(parts, body, id, first, isReliable);
    if order == [] {
      assert seen + Positions(order) == seen;
    } else {
      var k := order[0].part;
      assert Positions(order) == {k} + Positions(order[1..]) by { assert order == [order[0]] + order[1..]; }
      Arrives(e, parts, body, id, first, isReliable, seen, k, order[0].acks);
      var e1 := PushRecvPacket(e, parts[k], order[0].acks);
      var e2 := RecvPacket(e1).0;
      assert seen + Positions(order) == (seen + {k}) + Positions(order[1..]);
      if seen + {k} == UpTo(|parts|) {
        InRange(order[1..], |parts|);
        HandsUp(e1, parts[0].(body := body), first, |parts|);
        assert 0 in UpTo(|parts|);
        Gather(e2, parts, body, id, first, isReliable, {}, order[1..]);
      } else {
        Gather(e2, parts, body, id, first, isReliable, seen + {k}, order[1..]);
      }
    }
  }

  lemma InRange(order: seq<Arrival>, n: nat)
    requires forall a :: a in order ==> a.part < n
    ensures UpTo(n) + Positions(order) == UpTo(n)
  {
  }

  /**
   * Whatever the order and the repetitions, the receiver hands up one packet with exactly the payload's bits and the
   * first fragment's number if every fragment arrives, and nothing otherwise; later copies are dropped.
   */
  lemma AnyOrder(e: Endpoint, parts: seq<Packet>, body: Body, id: u32, first: nat, isReliable: bool,
      order: seq<Arrival>)
    requires Fragments(parts, body, id, first, isReliable)
    requires e.avail == [] && id !in e.siblings && e.recvSeq + 1 == first
    requires forall a :: a in order ==> a.part < |parts|
    ensures var r := Feed(e, parts, order);
            !r.crashed && r.handedUp == if Positions(order) == UpTo(|parts|) then [parts[0].(body := body)] else []
    ensures parts != [] && parts[0].(body := body).seqNo == first
  {
    AllTogether(parts, body, id, first, isReliable);
    assert 0 in UpTo(|parts|);
    Gather(e, parts, body, id, first, isReliable, {}, order);
    assert {} + Positions(order) == Positions(order);
  }

  /** What SendPacket queues for a large payload, when the queue has room for it, are its fragments. */
  lemma SentFragments(e: Endpoint, body: Body, isReliable: bool)
    requires IsLarge(body) && |body.bytes| <= LARGEST_BODY
    requires |e.sendQueue| + |Split(body)| <= QUEUE_CAPACITY && e.sendSeq + |Split(body)| < Network.SEQUENCE_SPACE
    ensures var e' := SendPacket(e, body, isReliable);
            && e.sendQueue <= e'.sendQueue
            && Fragments(e'.sendQueue[|e.sendQueue|..], body, Wrap32(e.siblingId + 1), e.sendSeq + 1, isReliable)
  {
    hide Split;
    SplitParts(body);
    Sending.SendQueues(e, body, isReliable);
    var id := Wrap32(e.siblingId + 1);
    var pieces := Parts(body, id, isReliable);
    assert pieces[..|pieces|] == pieces;
    Sending.QueuedPackets(e.(siblingId := id), pieces);
  }
}
