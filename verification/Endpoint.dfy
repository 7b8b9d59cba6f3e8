/** One side of a link as a value, and each call of the protocol as a function on it. */
module Endpoints {
  import opened Bits
  import opened Options
  import opened Packets
  import opened SiblingBodies
  import Acks
  import Frames

  const QUEUE_CAPACITY: nat := 16384

  datatype Endpoint = Endpoint(
    sendSeq: u32, recvSeq: u32, siblingId: u32,
    avail: seq<Packet>, reliable: seq<Packet>, sendQueue: seq<Packet>, retransmit: seq<Packet>,
    recvAcks: seq<u32>, siblings: map<u32, Storage>)

  const FRESH_ENDPOINT := Endpoint(0, 0, 0, [], [], [], [], [], map[])

  // ---- sending ----

  function AddToSendQueue(e: Endpoint, p: Packet): Endpoint {
    if |e.sendQueue| >= QUEUE_CAPACITY then e
    else
      var n := Wrap32(e.sendSeq + 1);
      e.(sendSeq := n, sendQueue := e.sendQueue + [p.(seqNo := n)])
  }

  function Part(body: Body, count: u32, id: u32, pos: u32, reliable: bool): Packet {
    Packet(0, count, id, pos, reliable, false, body)
  }

  function Parts(b: Body, id: u32, reliable: bool): (r: seq<Packet>)
    requires |Split(b)| < 0x1_0000_0000
    ensures |r| == |Split(b)|
  {
    var s := Split(b);
    seq(|s|, j requires 0 <= j < |s| => Part(s[j], |s|, id, j, reliable))
  }

  function QueueAll(e: Endpoint, ps: seq<Packet>): Endpoint
    decreases |ps|
  {
    if ps == [] then e else QueueAll(AddToSendQueue(e, ps[0]), ps[1..])
  }

  /** Growing buffers are limited to this many bytes. */
  const LARGEST_BODY: nat := 0xF_FE00

  function SendPacket(e: Endpoint, body: Body, reliable: bool): (r: Endpoint)
    requires |body.bytes| <= LARGEST_BODY
  {
    SplitParts(body);
    if IsLarge(body) then
      var id := Wrap32(e.siblingId + 1);
      QueueAll(e.(siblingId := id), Parts(body, id, reliable))
    else
      AddToSendQueue(e, Part(body, 0, 0, 0, reliable))
  }

  /** What SendPacket returns: a large payload always reports success. */
  predicate SendResult(e: Endpoint, body: Body) {
    IsLarge(body) || |e.sendQueue| < QUEUE_CAPACITY
  }

  /** The datagrams for some packets; each takes its share of the pending acks. */
  function Wrap(ps: seq<Packet>, pending: seq<u32>): (r: seq<seq<byte>>)
    ensures |r| == |ps|
    decreases |ps|
  {
    if ps == [] then []
    else
      Acks.Partition(pending);
      [Frames.FrameBytes(ps[0], Acks.Sent(pending))] + Wrap(ps[1..], Acks.Kept(pending))
  }

  function AcksAfter(n: nat, pending: seq<u32>): seq<u32> {
    if n == 0 then pending else AcksAfter(n - 1, Acks.Kept(pending))
  }

  function Reliable(ps: seq<Packet>): (r: seq<Packet>)
    ensures forall p :: p in r <==> p in ps && p.reliable
  {
    if ps == [] then []
    else if ps[0].reliable then [ps[0]] + Reliable(ps[1..])
    else Reliable(ps[1..])
  }

  /** Packets whose resend period has passed join the retransmit queue while there is room. */
  function Overdue(ps: seq<Packet>, due: set<u32>, room: nat): (r: seq<Packet>)
    ensures forall p :: p in r ==> p in ps
  {
    if ps == [] || room == 0 then []
    else if ps[0].seqNo in due then [ps[0]] + Overdue(ps[1..], due, room - 1)
    else Overdue(ps[1..], due, room)
  }

  function Room(e: Endpoint): nat {
    if |e.retransmit| <= QUEUE_CAPACITY then QUEUE_CAPACITY - |e.retransmit| else 0
  }

  /** The packets one batch puts on the wire, in order. */
  function Batch(e: Endpoint, due: set<u32>): seq<Packet> {
    e.retransmit + Overdue(e.reliable, due, Room(e)) + e.sendQueue
  }

  function BatchSend(e: Endpoint, due: set<u32>): Endpoint {
    e.(retransmit := [], sendQueue := [],
       reliable := e.reliable + Reliable(e.sendQueue),
       recvAcks := AcksAfter(|Batch(e, due)|, e.recvAcks))
  }

  // ---- receiving ----

  function Unacked(ps: seq<Packet>, acks: set<u32>): (r: seq<Packet>)
    ensures forall p :: p in r <==> p in ps && p.seqNo !in acks
  {
    if ps == [] then []
    else if ps[0].seqNo in acks then Unacked(ps[1..], acks)
    else [ps[0]] + Unacked(ps[1..], acks)
  }

  /** The slots of a sibling group; a new group gets as many as its first packet announces. */
  function StorageFor(e: Endpoint, p: Packet): Storage {
    if p.sibId in e.siblings && e.siblings[p.sibId] != [] then e.siblings[p.sibId] else EmptyStorage(p.numSibs)
  }

  /** The position is one of the slots of the group. */
  predicate Fits(e: Endpoint, p: Packet) {
    p.HasSiblings() ==> p.sibPos < |StorageFor(e, p)|
  }

  /** If p completes its group, merging it keeps every bit. */
  predicate MergesSafely(e: Endpoint, p: Packet)
    requires Fits(e, p)
  {
    p.HasSiblings() && StorageFor(e, p)[p.sibPos].None? ==>
      var s := StorageFor(e, p)[p.sibPos := Some(p)];
      AllAvailable(s) ==> MergeFits(0, Bodies(s))
  }

  /** The ids compared when a part finds its slot taken, and over a whole group when the part completes it. */
  predicate IdsAgree(e: Endpoint, p: Packet)
    requires Fits(e, p)
  {
    p.HasSiblings() ==>
      var s := StorageFor(e, p);
      if s[p.sibPos].Some? then s[p.sibPos].value.sibId == p.sibId
      else
        var s' := s[p.sibPos := Some(p)];
        AllAvailable(s') ==> forall j :: 0 <= j < |s'| ==> s'[j].value.sibId == p.sibId
  }

  /** A whole packet becomes available; a part waits in its slot until its group is complete. */
  function TakePacket(e: Endpoint, p: Packet): Endpoint
    requires Fits(e, p)
  {
    if !p.HasSiblings() then e.(avail := e.avail + [p])
    else
      var s := StorageFor(e, p);
      if s[p.sibPos].Some? then e.(siblings := e.siblings[p.sibId := s])
      else
        var s' := s[p.sibPos := Some(p)];
        if AllAvailable(s')
        then e.(avail := e.avail + [MergedPacket(s')], siblings := e.siblings - {p.sibId})
        else e.(siblings := e.siblings[p.sibId := s'])
  }

  function PushRecvPacket(e: Endpoint, p: Packet, acks: set<u32>): Endpoint
    requires Fits(e, p)
  {
    TakePacket(e.(reliable := Unacked(e.reliable, acks), retransmit := Unacked(e.retransmit, acks),
                  recvAcks := e.recvAcks + [p.seqNo]), p)
  }

  /** A push makes at most one packet available. */
  lemma PushesOne(e: Endpoint, p: Packet, acks: set<u32>)
    requires Fits(e, p)
    ensures |PushRecvPacket(e, p, acks).avail| <= |e.avail| + 1
  {
    hide MergedPacket, Unacked, StorageFor;
  }

  /** How far the expected number moves when p is delivered. */
  function Advance(p: Packet): nat {
    if p.numSibs > 0 then p.numSibs else 1
  }

  predicate IsNext(e: Endpoint, p: Packet) {
    e.recvSeq < p.seqNo && p.seqNo == Wrap32(e.recvSeq + 1)
  }

  /** The only available packet, if it is the next one; otherwise it is dropped. */
  function RecvPacket(e: Endpoint): (r: (Endpoint, Option<Packet>))
    requires |e.avail| <= 1
  {
    if e.avail == [] then (e, None)
    else
      var p := e.avail[0];
      if IsNext(e, p)
      then (e.(avail := [], recvSeq := Wrap32(e.recvSeq + Advance(p))), Some(p))
      else (e.(avail := []), None)
  }

  /** The ids given to addAck are kept as a set. */
  function AckSet(acks: seq<u32>): set<u32> {
    set a | a in acks
  }

  /** One datagram: parsed, pushed, and the protocol drained. */
  function Deliver(e: Endpoint, frame: seq<byte>): (r: (Endpoint, Option<Packet>))
    requires e.avail == []
    requires var f := Frames.Parse(frame); f.Received? ==> Fits(e, f.packet)
    ensures r.0.avail == []
  {
    hide Frames.Parse, Fits, PushRecvPacket;
    match Frames.Parse(frame)
    case Received(p, acks) =>
      PushesOne(e, p, AckSet(acks));
      RecvPacket(PushRecvPacket(e, p, AckSet(acks)))
    case _ => (e, None)
  }
}
