/** What a batch must put on the wire: overdue packets again, then the queue, and the acks owed. */
module Retransmits {
  import opened Bits
  import opened Options
  import opened Packets
  import opened SiblingBodies
  import opened Endpoints
  import opened Network
  import opened NetworkSafety
  import opened Deliveries
  import opened LosslessRuns
  import Acks
  import Frames
  import Sending = SendProofs
  import Batches = BatchProofs
  import Receiving = ReceiveProofs

  // ---- the packets of a batch ----

  /** How many of the first i packets are overdue. */
  function OverdueBefore(ps: seq<Packet>, due: set<u32>, i: nat): nat
    requires i <= |ps|
  {
    if i == 0 then 0 else OverdueBefore(ps, due, i - 1) + if ps[i - 1].seqNo in due then 1 else 0
  }

  lemma {:induction false} CountFromFront(ps: seq<Packet>, due: set<u32>, i: nat)
    requires 0 < i <= |ps|
    ensures OverdueBefore(ps, due, i) == (if ps[0].seqNo in due then 1 else 0) + OverdueBefore(ps[1..], due, i - 1)
  {
    if i > 1 { CountFromFront(ps, due, i - 1); }
  }

  lemma {:induction false} OverdueCount(ps: seq<Packet>, due: set<u32>, room: nat)
    ensures |Overdue(ps, due, room)| == Sending.Min(room, OverdueBefore(ps, due, |ps|))
    decreases |ps|
  {
    hide OverdueBefore;
    if ps == [] {
      NoneBefore(ps, due);
    } else if room > 0 {
      CountFromFront(ps, due, |ps|);
      OverdueCount(ps[1..], due, if ps[0].seqNo in due then room - 1 else room);
    }
  }

  lemma NoneBefore(ps: seq<Packet>, due: set<u32>)
    ensures OverdueBefore(ps, due, 0) == 0
  {
  }

  /** Overdue packet i is sent again at its turn, unless the retransmit queue is full before. */
  lemma {:induction false} OverdueAt(ps: seq<Packet>, due: set<u32>, room: nat, i: nat)
    requires i < |ps| && ps[i].seqNo in due && OverdueBefore(ps, due, i) < room
    ensures OverdueBefore(ps, due, i) < |Overdue(ps, due, room)|
    ensures Overdue(ps, due, room)[OverdueBefore(ps, due, i)] == ps[i]
    decreases i
  {
    hide OverdueBefore;
    if i == 0 {
      NoneBefore(ps, due);
    } else {
      CountFromFront(ps, due, i);
      OverdueAt(ps[1..], due, if ps[0].seqNo in due then room - 1 else room, i - 1);
    }
  }

  lemma {:induction false} OnlyOverdue(ps: seq<Packet>, due: set<u32>, room: nat)
    ensures forall p :: p in Overdue(ps, due, room) ==> p in ps && p.seqNo in due
    decreases |ps|
  {
    if ps != [] && room > 0 { OnlyOverdue(ps[1..], due, if ps[0].seqNo in due then room - 1 else room); }
  }

  lemma {:induction false} CountBounded(ps: seq<Packet>, due: set<u32>, i: nat)
    requires i <= |ps|
    ensures OverdueBefore(ps, due, i) <= i
  {
    if i > 0 { CountBounded(ps, due, i - 1); }
  }

  /** With no more unacknowledged packets than the queue holds, a batch is exactly the overdue ones and those queued. */
  lemma BatchExactly(e: Endpoint, due: set<u32>, p: Packet)
    requires e.retransmit == [] && |e.reliable| <= QUEUE_CAPACITY
    ensures p in Batch(e, due) <==> (p in e.reliable && p.seqNo in due) || p in e.sendQueue
    ensures |Batch(e, due)| == OverdueBefore(e.reliable, due, |e.reliable|) + |e.sendQueue|
  {
    OverdueCount(e.reliable, due, QUEUE_CAPACITY);
    OnlyOverdue(e.reliable, due, QUEUE_CAPACITY);
    CountBounded(e.reliable, due, |e.reliable|);
    if p in e.reliable && p.seqNo in due {
      var i :| 0 <= i < |e.reliable| && e.reliable[i] == p;
      CountBounded(e.reliable, due, i);
      OverdueAt(e.reliable, due, QUEUE_CAPACITY, i);
    }
  }

  /** What is sent again leaves in order and once, and before what is new. */
  lemma BatchAscends(e: Endpoint, due: set<u32>)
    requires e.retransmit == [] && Ascending(e.reliable + e.sendQueue)
    ensures Ascending(Batch(e, due))
  {
    OverdueAscends(e.reliable, due, Room(e), e.sendQueue);
    assert [] + Overdue(e.reliable, due, Room(e)) + e.sendQueue == Overdue(e.reliable, due, Room(e)) + e.sendQueue;
  }

  lemma {:induction false} OverdueAscends(ps: seq<Packet>, due: set<u32>, room: nat, rest: seq<Packet>)
    requires Ascending(ps + rest)
    ensures Ascending(Overdue(ps, due, room) + rest)
    decreases |ps|
  {
    var all := ps + rest;
    if ps == [] || room == 0 {
      assert forall i :: 0 <= i < |rest| ==> ([] + rest)[i] == all[|ps| + i];
    } else {
      assert all[1..] == ps[1..] + rest;
      assert forall i :: 0 <= i < |all| - 1 ==> all[1..][i] == all[i + 1];
      var more := Overdue(ps[1..], due, if ps[0].seqNo in due then room - 1 else room);
      OverdueAscends(ps[1..], due, if ps[0].seqNo in due then room - 1 else room, rest);
      if ps[0].seqNo in due {
        FirstSmallest(all);
        PrependAscends(ps[0], more + rest);
        assert [ps[0]] + (more + rest) == Overdue(ps, due, room) + rest;
      }
    }
  }

  lemma FirstSmallest(all: seq<Packet>)
    requires Ascending(all) && all != []
    ensures forall p :: p in all[1..] ==> all[0].seqNo < p.seqNo
  {
  }

  lemma PrependAscends(p: Packet, ps: seq<Packet>)
    requires Ascending(ps) && forall q :: q in ps ==> p.seqNo < q.seqNo
    ensures Ascending([p] + ps)
  {
    assert forall i :: 0 <= i < |ps| ==> ps[i] in ps;
  }

  // ---- the datagrams ----

  /** Datagram i carries packet i and the acks that are due then. */
  lemma {:induction false} WrapAt(ps: seq<Packet>, pending: seq<u32>, i: nat)
    requires i < |ps|
    ensures Acks.Increasing(Acks.Sent(AcksAfter(i, pending))) && |Acks.Sent(AcksAfter(i, pending))| <= Acks.MAX_ACKS
    ensures Wrap(ps, pending)[i] == Frames.FrameBytes(ps[i], Acks.Sent(AcksAfter(i, pending)))
    decreases i
  {
    hide Frames.FrameBytes, Acks.Sent, Acks.Kept;
    Acks.Partition(pending);
    if i == 0 {
      Acks.Partition(AcksAfter(0, pending));
    } else {
      WrapAt(ps[1..], Acks.Kept(pending), i - 1);
    }
  }

  /** A datagram of this packet with some acks. */
  ghost predicate DatagramOf(f: seq<byte>, p: Packet) {
    exists acks: seq<u32> ::
      Acks.Increasing(acks) && |acks| <= Acks.MAX_ACKS && f == Frames.FrameBytes(p, acks)
  }

  /** Every overdue packet and every queued one gets a datagram of the batch. */
  lemma EveryoneSent(e: Endpoint, due: set<u32>, p: Packet)
    requires e.retransmit == [] && |e.reliable| <= QUEUE_CAPACITY
    requires (p in e.reliable && p.seqNo in due) || p in e.sendQueue
    ensures exists f :: f in Wrap(Batch(e, due), e.recvAcks) && DatagramOf(f, p)
  {
    hide Frames.FrameBytes, Batch, Wrap, Acks.Sent;
    BatchExactly(e, due, p);
    var ps := Batch(e, due);
    var i :| 0 <= i < |ps| && ps[i] == p;
    WrapAt(ps, e.recvAcks, i);
    assert DatagramOf(Wrap(ps, e.recvAcks)[i], p);
  }

  /** In a reachable world: the peer can read it, and it is on the wire. */
  lemma OverdueResent(w: World, due: set<u32>, p: Packet, exact: bool)
    requires Inv(w, exact) && |w.me.e.reliable| <= QUEUE_CAPACITY
    requires LegibleFrames(Batch(w.me.e, due), w.me.e.recvAcks, true)
    requires (p in w.me.e.reliable && p.seqNo in due) || p in w.me.e.sendQueue
    ensures exists f :: f in BatchOn(w, due).out && f in Datagrams(w.me.e, due) && Carries(f, p.(reliable := true))
  {
    hide Inv, Wrap, Batch, InOrder, Frames.Parse, SenderOk, LegibleFrames;
    Numbers(w, exact);
    BatchExactly(w.me.e, due, p);
    var ps := Batch(w.me.e, due);
    BatchNumbered(w, due, exact);
    WrapCarries(w.me, ps, w.me.e.recvAcks);
    var i :| 0 <= i < |ps| && ps[i] == p;
    assert Carries(Datagrams(w.me.e, due)[i], AsReceived(ps)[i]);
    assert Datagrams(w.me.e, due)[i] in Datagrams(w.me.e, due);
  }

  lemma BatchNumbered(w: World, due: set<u32>, exact: bool)
    requires Inv(w, exact)
    ensures SenderOk(w.me) && forall p :: p in Batch(w.me.e, due) ==> Numbered(p, w.me.all)
  {
    hide LogOk, PacketOk, GroupOf, ReceiverOk, Numbered, Ascending;
    assert forall p :: p in Batch(w.me.e, due) ==> p in w.me.e.reliable + w.me.e.sendQueue;
  }

  /** Reliable packets are held after a batch exactly if they were held or queued before; all wait in order. */
  lemma HeldAfterBatch(e: Endpoint, due: set<u32>, p: Packet)
    requires Ascending(e.reliable + e.sendQueue)
    ensures var held := Endpoints.BatchSend(e, due).reliable;
            Ascending(held) && (p in held <==> p in e.reliable || (p in e.sendQueue && p.reliable))
  {
    Batches.ReliableAscending(e.reliable, e.sendQueue);
  }

  // ---- a lost batch ----

  /** What sending reliable payloads queues: reliable packets, numbered on. */
  ghost predicate NumberedOn(q: seq<Packet>, from: nat) {
    forall i :: 0 <= i < |q| ==> q[i].reliable && q[i].seqNo == from + 1 + i
  }

  lemma OneQueued(e: Endpoint, p: Payload)
    requires HasRoom(e, [p]) && p.isReliable
    ensures var e' := SendPacket(e, p.body, p.isReliable);
            && e.sendQueue <= e'.sendQueue && |e'.sendQueue| == |e.sendQueue| + PacketCount([p])
            && NumberedOn(e'.sendQueue[|e.sendQueue|..], e.sendSeq)
  {
    hide SendPacket;
    assert Sendable(p.body);
    SplitParts(p.body);
    CountOne(p);
    Sending.SentEndpoint(e, p.body, p.isReliable);
    var pieces := Sending.Pieces(e, p.body, p.isReliable);
    assert pieces[..|pieces|] == pieces;
    var q := Sending.Renumbered(e.sendSeq, pieces);
    assert (e.sendQueue + q)[|e.sendQueue|..] == q;
  }

  lemma {:induction false} AllQueued(e: Endpoint, ps: seq<Payload>)
    requires HasRoom(e, ps) && forall p :: p in ps ==> p.isReliable && |p.body.bytes| <= LARGEST_BODY
    ensures var e' := SendAll(e, ps);
            && e.sendQueue <= e'.sendQueue && |e'.sendQueue| == |e.sendQueue| + PacketCount(ps)
            && NumberedOn(e'.sendQueue[|e.sendQueue|..], e.sendSeq)
    decreases |ps|
  {
    hide SendPacket, Sendable, NumberedOn;
    if ps == [] {
      NoneNumbered(e.sendQueue, e.sendSeq);
    } else {
      var p, rest := ps[0], ps[1..];
      assert ps == [p] + rest;
      CountFirst(p, rest);
      assert HasRoom(e, [p]);
      OneSent(e, p);
      OneQueued(e, p);
      var e1 := SendPacket(e, p.body, p.isReliable);
      AllQueued(e1, rest);
      NumberedJoined(e.sendQueue, e1.sendQueue, SendAll(e1, rest).sendQueue, e.sendSeq);
    }
  }

  lemma NoneNumbered(q: seq<Packet>, from: nat)
    ensures NumberedOn(q[|q|..], from)
  {
  }

  lemma NumberedJoined(q0: seq<Packet>, q1: seq<Packet>, q2: seq<Packet>, from: nat)
    requires q0 <= q1 <= q2 && NumberedOn(q1[|q0|..], from) && NumberedOn(q2[|q1|..], from + |q1| - |q0|)
    ensures NumberedOn(q2[|q0|..], from)
  {
    var all := q2[|q0|..];
    assert all == q1[|q0|..] + q2[|q1|..];
  }

  lemma {:induction false} AllReliable(q: seq<Packet>)
    requires forall p :: p in q ==> p.reliable
    ensures Reliable(q) == q
    decreases |q|
  {
    if q != [] { AllReliable(q[1..]); }
  }

  lemma {:induction false} NotDuePassed(kept: seq<Packet>, q: seq<Packet>, due: set<u32>, room: nat)
    requires forall p :: p in kept ==> p.seqNo !in due
    ensures Overdue(kept + q, due, room) == Overdue(q, due, room)
    decreases |kept|
  {
    if kept == [] {
      assert kept + q == q;
    } else {
      var all := kept + q;
      assert all[0] == kept[0] && all[1..] == kept[1..] + q;
      NotDuePassed(kept[1..], q, due, room);
    }
  }

  lemma {:induction false} DueTaken(q: seq<Packet>, due: set<u32>, room: nat)
    requires (forall p :: p in q ==> p.seqNo in due) && |q| <= room
    ensures Overdue(q, due, room) == q
    decreases |q|
  {
    if q != [] { DueTaken(q[1..], due, room - 1); }
  }

  /** Packets not due, then packets due: exactly these are overdue, if there is room. */
  lemma OverdueSuffix(kept: seq<Packet>, q: seq<Packet>, due: set<u32>, room: nat)
    requires (forall p :: p in kept ==> p.seqNo !in due) && (forall p :: p in q ==> p.seqNo in due) && |q| <= room
    ensures Overdue(kept + q, due, room) == q
  {
    hide Overdue;
    NotDuePassed(kept, q, due, room);
    DueTaken(q, due, room);
  }

  /** A batch sends again exactly the reliable packets that are due, with nothing else queued. */
  lemma AgainMove(w: World, kept: seq<Packet>, q: seq<Packet>, due: set<u32>, exact: bool)
    requires Inv(w, exact) && w.me.e.reliable == kept + q && w.me.e.sendQueue == [] && |q| <= QUEUE_CAPACITY
    requires (forall p :: p in kept ==> p.seqNo !in due) && (forall p :: p in q ==> p.seqNo in due)
    requires LegibleFrames(Batch(w.me.e, due), w.me.e.recvAcks, true)
    ensures var m := Move(false, Action.BatchSend(false, due));
            var fs := Datagrams(w.me.e, due);
            && CanMove(w, m) && Inv(Next(w, m), exact) && CarryAll(fs, AsReceived(q))
            && (forall f :: f in fs ==> f in Next(w, m).out) && Next(w, m).peer == w.peer
            && Next(w, m).me.e.sendQueue == [] && Next(w, m).me.e.sendSeq == w.me.e.sendSeq
  {
    hide Inv, Wrap, Acks.Sent, InOrder, SenderOk, LegibleFrames;
    Numbers(w, exact);
    OverdueSuffix(kept, q, due, Room(w.me.e));
    assert Batch(w.me.e, due) == q;
    BatchNumbered(w, due, exact);
    ExactIsLegible(q, w.me.e.recvAcks, exact);
    WrapCarries(w.me, q, w.me.e.recvAcks);
    NextKeepsInv(w, Move(false, Action.BatchSend(false, due)), exact);
  }

  /** The first batch after the payloads, whatever it sends again: all of it may be lost. */
  lemma LostMove(w: World, due: set<u32>, exact: bool)
    requires Inv(w, exact) && LegibleFrames(Batch(w.me.e, due), w.me.e.recvAcks, exact)
    ensures var m := Move(false, Action.BatchSend(false, due));
            && CanMove(w, m) && Inv(Next(w, m), exact) && Next(w, m).peer == w.peer
            && Next(w, m).me.e == Endpoints.BatchSend(w.me.e, due)
  {
    hide Inv, Wrap, Acks.Sent, InOrder, SenderOk, LegibleFrames, Batch, AcksAfter, Reliable;
    Numbers(w, exact);
    NextKeepsInv(w, Move(false, Action.BatchSend(false, due)), exact);
  }

  /** Payloads are queued; of two batches all datagrams of the first are lost and those of the second received. */
  function SecondTry(e: Endpoint, ps: seq<Payload>, lost: set<u32>, due: set<u32>): seq<Move>
    requires forall p :: p in ps ==> |p.body.bytes| <= LARGEST_BODY
  {
    Sends(ps)
    + ([Move(false, Action.BatchSend(false, lost))]
       + ([Move(false, Action.BatchSend(false, due))]
          + Receipts(Datagrams(Endpoints.BatchSend(SendAll(e, ps), lost), due))))
  }

  predicate AllReliablePayloads(ps: seq<Payload>) {
    forall p :: p in ps ==> p.isReliable && |p.body.bytes| <= LARGEST_BODY
  }

  /** The numbers the payloads get are due, and no others that wait. */
  predicate DueAgain(e: Endpoint, ps: seq<Payload>, due: set<u32>) {
    && (forall p :: p in e.reliable ==> p.seqNo !in due)
    && forall n: u32 :: e.sendSeq < n <= e.sendSeq + PacketCount(ps) ==> n in due
  }

  /**
   * Reliable payloads survive the loss of every one of their datagrams: once they are overdue the next batch sends them
   * again, and they are handed up in order and bit for bit.
   */
  lemma LostBatchRecovered(w: World, ps: seq<Payload>, lost: set<u32>, due: set<u32>, exact: bool)
    requires Inv(w, exact) && UpToDate(w.peer.e, w.me.e.sendSeq) && w.me.e.sendQueue == []
    requires AllReliablePayloads(ps) && HasRoom(w.me.e, ps) && DueAgain(w.me.e, ps, due)
    requires var e1 := SendAll(w.me.e, ps);
             var e2 := Endpoints.BatchSend(e1, lost);
             LegibleFrames(Batch(e1, lost), e1.recvAcks, exact) && LegibleFrames(Batch(e2, due), e2.recvAcks, true)
    ensures IsRun(w, SecondTry(w.me.e, ps, lost, due))
    ensures var w' := Run(w, SecondTry(w.me.e, ps, lost, due));
            && Inv(w', exact) && w'.peer.delivered == w.peer.delivered + PayloadsOf(ps)
            && UpToDate(w'.peer.e, w'.me.e.sendSeq) && w'.me.e.sendQueue == []
  {
    hide Inv, CanMove, Next, IsRun, Run, SendAll, Sends, Receipts, FeedAll, Datagrams, Sendable, LegibleFrames, Batch,
         Reliable, AcksAfter;
    AllSent(w, ps, exact);
    var w1 := Run(w, Sends(ps));
    var q := w1.me.e.sendQueue;
    AllQueued(w.me.e, ps);
    assert q[|w.me.e.sendQueue|..] == q;
    var m1, m2 := Move(false, Action.BatchSend(false, lost)), Move(false, Action.BatchSend(false, due));
    LostMove(w1, lost, exact);
    OneMove(w1, m1);
    var w2 := Next(w1, m1);
    QueueDue(w.me.e, ps, q, due);
    AgainMove(w2, w.me.e.reliable, q, due, exact);
    OneMove(w2, m2);
    var w3 := Next(w2, m2);
    var fs := Datagrams(w2.me.e, due);
    InOrderFeed(w.me.e, w.peer.e, ps);
    AllReceived(w3, fs, AsReceived(q), w.peer.e, exact);
    RunConcat(w2, [m2], Receipts(fs));
    RunConcat(w1, [m1], [m2] + Receipts(fs));
    RunConcat(w, Sends(ps), [m1] + ([m2] + Receipts(fs)));
  }

  lemma QueueDue(e: Endpoint, ps: seq<Payload>, q: seq<Packet>, due: set<u32>)
    requires NumberedOn(q, e.sendSeq) && |q| == PacketCount(ps) && DueAgain(e, ps, due)
    ensures Reliable(q) == q && forall p :: p in q ==> p.seqNo in due
  {
    AllReliable(q);
  }
}
