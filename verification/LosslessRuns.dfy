/** Runs over a network that loses and reorders nothing: whatever is queued arrives. */
module LosslessRuns {
  import opened Bits
  import opened Options
  import opened Packets
  import opened SiblingBodies
  import opened Endpoints
  import opened Network
  import opened NetworkSafety
  import opened Deliveries
  import Acks
  import Frames
  import Sending = SendProofs
  import Batches = BatchProofs
  import Receiving = ReceiveProofs

  // ---- runs ----

  lemma {:induction false} RunConcat(w: World, a: seq<Move>, b: seq<Move>)
    requires IsRun(w, a) && IsRun(Run(w, a), b)
    ensures IsRun(w, a + b) && Run(w, a + b) == Run(Run(w, a), b)
    decreases |a|
  {
    hide CanMove, Next;
    if a == [] {
      assert a + b == b;
    } else {
      assert (a + b)[1..] == a[1..] + b;
      RunConcat(Next(w, a[0]), a[1..], b);
    }
  }

  lemma OneMove(w: World, m: Move)
    requires CanMove(w, m)
    ensures IsRun(w, [m]) && Run(w, [m]) == Next(w, m)
  {
    hide CanMove, Next;
    assert [m][1..] == [];
    assert IsRun(Next(w, m), []) && Run(Next(w, m), []) == Next(w, m);
  }

  // ---- sending ----

  function Sends(ps: seq<Payload>): (r: seq<Move>)
    ensures |r| == |ps|
  {
    seq(|ps|, i requires 0 <= i < |ps| => Move(false, Send(ps[i].body, ps[i].isReliable)))
  }

  /** There is room for the payloads, and numbers and ids for them. */
  predicate HasRoom(e: Endpoint, ps: seq<Payload>) {
    && (forall p :: p in ps ==> Sendable(p.body))
    && |e.sendQueue| + PacketCount(ps) <= QUEUE_CAPACITY
    && e.sendSeq + PacketCount(ps) < SEQUENCE_SPACE && e.siblingId + |ps| < SEQUENCE_SPACE
  }

  lemma OneSent(e: Endpoint, p: Payload)
    requires HasRoom(e, [p])
    ensures var e' := SendPacket(e, p.body, p.isReliable);
            && e' == e.(sendSeq := e'.sendSeq, siblingId := e'.siblingId, sendQueue := e'.sendQueue)
            && e'.sendSeq == e.sendSeq + PacketCount([p]) && |e'.sendQueue| == |e.sendQueue| + PacketCount([p])
            && e'.siblingId == e.siblingId + if IsLarge(p.body) then 1 else 0
  {
    hide Split;
    assert Sendable(p.body);
    CountOne(p);
    Sending.SendQueues(e, p.body, p.isReliable);
    var pieces := Sending.Pieces(e, p.body, p.isReliable);
    assert pieces[..|pieces|] == pieces;
    var e0 := if IsLarge(p.body) then e.(siblingId := Wrap32(e.siblingId + 1)) else e;
    Sending.QueuedPackets(e0, pieces);
  }

  lemma SendMove(w: World, p: Payload, exact: bool)
    requires Inv(w, exact) && HasRoom(w.me.e, [p])
    ensures var m := Move(false, Send(p.body, p.isReliable));
            && CanMove(w, m) && Inv(Next(w, m), exact)
            && Next(w, m) == w.(me := Next(w, m).me) && Next(w, m).me.e == SendPacket(w.me.e, p.body, p.isReliable)
            && Next(w, m).me.seen == w.me.seen
  {
    hide Inv, SendPacket, Split;
    assert Sendable(p.body);
    OneSent(w.me.e, p);
    var m := Move(false, Send(p.body, p.isReliable));
    Numbers(w, exact);
    NextKeepsInv(w, m, exact);
  }

  /** The counters of both sides, and what is never left between calls. */
  lemma Numbers(w: World, exact: bool)
    requires Inv(w, exact)
    ensures NoWrap(w) && !w.crashed
    ensures |w.me.all| == w.me.e.sendSeq && w.me.groups == w.me.e.siblingId && w.me.e.retransmit == []
    ensures w.peer.e.avail == [] && forall a :: a in w.me.e.recvAcks ==> a in w.me.seen
  {
    hide LogOk, Ascending, PacketOk, GroupOf;
  }

  lemma {:induction false} AllSent(w: World, ps: seq<Payload>, exact: bool)
    requires Inv(w, exact) && HasRoom(w.me.e, ps)
    ensures IsRun(w, Sends(ps))
    ensures var w' := Run(w, Sends(ps));
            && Inv(w', exact) && w' == w.(me := w'.me) && w'.me.seen == w.me.seen
            && (forall p :: p in ps ==> |p.body.bytes| <= LARGEST_BODY) && w'.me.e == SendAll(w.me.e, ps)
            && w'.me.e
               == w.me.e.(sendSeq := w'.me.e.sendSeq, siblingId := w'.me.e.siblingId, sendQueue := w'.me.e.sendQueue)
    decreases |ps|
  {
    hide Inv, SendPacket, Sendable, CanMove, Next;
    if ps != [] {
      var p := ps[0];
      assert ps == [p] + ps[1..];
      CountFirst(p, ps[1..]);
      assert HasRoom(w.me.e, [p]);
      OneSent(w.me.e, p);
      SendMove(w, p, exact);
      assert Sends(ps)[1..] == Sends(ps[1..]);
      AllSent(Next(w, Sends(ps)[0]), ps[1..], exact);
      Bounded(ps);
    }
  }

  lemma Bounded(ps: seq<Payload>)
    requires forall p :: p in ps ==> Sendable(p.body)
    ensures forall p :: p in ps ==> |p.body.bytes| <= LARGEST_BODY
  {
  }

  // ---- the batch ----

  ghost predicate Carries(f: seq<byte>, p: Packet) {
    exists acks: seq<u32> :: Frames.Parse(f) == Frames.Received(p, acks)
  }

  /** Datagram i carries packet i. */
  ghost predicate CarryAll(fs: seq<seq<byte>>, ps: seq<Packet>) {
    |fs| == |ps| && forall i :: 0 <= i < |fs| ==> Carries(fs[i], ps[i])
  }

  lemma {:induction false} WrapCarries(n: Node, ps: seq<Packet>, pending: seq<u32>)
    requires SenderOk(n) && (forall p :: p in ps ==> Numbered(p, n.all)) && forall a :: a in pending ==> a in n.seen
    requires LegibleFrames(ps, pending, true)
    ensures CarryAll(Wrap(ps, pending), AsReceived(ps))
    decreases |ps|
  {
    hide Frames.FrameBytes, Frames.Parse, Frames.Arriving, Frames.Transparent, SenderOk, Acks.Sent, Acks.Kept;
    if ps != [] {
      Acks.Partition(pending);
      var acks := Acks.Sent(pending);
      assert ps[0] in ps;
      assert FrameOf(Wrap(ps, pending)[0], n, ps[0].seqNo - 1, acks, true);
      Receiving.Genuine(n, Wrap(ps, pending)[0], ps[0].seqNo - 1, acks, true);
      WrapCarries(n, ps[1..], Acks.Kept(pending));
      assert AsReceived(ps)[1..] == AsReceived(ps[1..]);
    }
  }

  /** The datagrams of a batch. */
  function Datagrams(e: Endpoint, due: set<u32>): seq<seq<byte>> {
    Wrap(Batch(e, due), e.recvAcks)
  }

  lemma {:induction false} NoneOverdue(ps: seq<Packet>, due: set<u32>, room: nat)
    requires forall p :: p in ps ==> p.seqNo !in due
    ensures Overdue(ps, due, room) == []
    decreases |ps|
  {
    if ps != [] { NoneOverdue(ps[1..], due, room); }
  }

  lemma {:induction false} ExactIsLegible(ps: seq<Packet>, pending: seq<u32>, exact: bool)
    requires LegibleFrames(ps, pending, true)
    ensures LegibleFrames(ps, pending, exact)
    decreases |ps|
  {
    hide Frames.Transparent, Frames.Readable, Acks.Sent, Acks.Kept;
    if ps != [] {
      Acks.Partition(pending);
      ExactIsLegible(ps[1..], Acks.Kept(pending), exact);
    }
  }

  lemma BatchMove(w: World, due: set<u32>, exact: bool)
    requires Inv(w, exact) && forall p :: p in w.me.e.reliable ==> p.seqNo !in due
    requires LegibleFrames(Batch(w.me.e, due), w.me.e.recvAcks, true)
    ensures var m := Move(false, Action.BatchSend(false, due));
            var fs := Datagrams(w.me.e, due);
            && CanMove(w, m) && Inv(Next(w, m), exact) && CarryAll(fs, AsReceived(w.me.e.sendQueue))
            && (forall f :: f in fs ==> f in Next(w, m).out) && Next(w, m).peer == w.peer
            && Next(w, m).me == w.me.(e := Endpoints.BatchSend(w.me.e, due))
  {
    hide Inv, Wrap, Acks.Sent, InOrder, SenderOk;
    Numbers(w, exact);
    NoneOverdue(w.me.e.reliable, due, Room(w.me.e));
    assert Batch(w.me.e, due) == w.me.e.sendQueue;
    QueueNumbered(w, exact);
    ExactIsLegible(w.me.e.sendQueue, w.me.e.recvAcks, exact);
    WrapCarries(w.me, w.me.e.sendQueue, w.me.e.recvAcks);
    NextKeepsInv(w, Move(false, Action.BatchSend(false, due)), exact);
  }

  lemma QueueNumbered(w: World, exact: bool)
    requires Inv(w, exact)
    ensures SenderOk(w.me) && forall p :: p in w.me.e.sendQueue ==> Numbered(p, w.me.all)
  {
    hide LogOk, Ascending, PacketOk, GroupOf, ReceiverOk;
    assert forall p :: p in w.me.e.sendQueue ==> p in w.me.e.reliable + w.me.e.sendQueue;
  }

  // ---- the receipts ----

  function Receipts(fs: seq<seq<byte>>): (r: seq<Move>)
    ensures |r| == |fs|
  {
    seq(|fs|, i requires 0 <= i < |fs| => Move(true, Receive(fs[i])))
  }

  /** What decides which payloads are handed up. */
  predicate SameReceiving(a: Endpoint, b: Endpoint) {
    a.avail == [] && b.avail == [] && a.siblings == b.siblings && a.recvSeq == b.recvSeq
  }

  /** The endpoint after a packet without acks, and what it hands up. */
  function Taken(e: Endpoint, p: Packet): (r: (Endpoint, Option<Packet>))
    requires e.avail == [] && Fits(e, p)
    ensures r.0.avail == []
  {
    OneAtMost(e, p, {});
    RecvPacket(PushRecvPacket(e, p, {}))
  }

  lemma SameOutcome(a: Endpoint, b: Endpoint, p: Packet, acks: set<u32>)
    requires SameReceiving(a, b) && Fits(b, p)
    ensures Fits(a, p) && |PushRecvPacket(a, p, acks).avail| <= 1
    ensures var (a', ra) := RecvPacket(PushRecvPacket(a, p, acks));
            var (b', rb) := Taken(b, p);
            SameReceiving(a', b') && ra == rb
  {
    hide PushRecvPacket, Fits;
    OneAtMost(b, p, {});
    SamePush(a, b, p, acks);
  }

  lemma SamePush(a: Endpoint, b: Endpoint, p: Packet, acks: set<u32>)
    requires SameReceiving(a, b) && Fits(b, p)
    ensures Fits(a, p)
    ensures var (a', b') := (PushRecvPacket(a, p, acks), PushRecvPacket(b, p, {}));
            a'.avail == b'.avail && a'.siblings == b'.siblings && a'.recvSeq == b'.recvSeq
  {
    hide MergedPacket, Unacked, AllAvailable;
  }

  lemma ReceiveMove(w: World, f: seq<byte>, p: Packet, r: Endpoint, exact: bool)
    requires Inv(w, exact) && f in w.out && Carries(f, p) && SameReceiving(w.peer.e, r) && Fits(r, p)
    ensures var m := Move(true, Receive(f));
            var (r', res) := Taken(r, p);
            && CanMove(w, m) && Inv(Next(w, m), exact) && Next(w, m).me == w.me && Next(w, m).out == w.out
            && Next(w, m).peer.delivered == w.peer.delivered + (if res.Some? then [res.value.body] else [])
            && SameReceiving(Next(w, m).peer.e, r')
  {
    hide Inv, Frames.Parse, PushRecvPacket, RecvPacket, Fits, MergesSafely, IdsAgree, Taken;
    var m := Move(true, Receive(f));
    var acks: seq<u32> :| Frames.Parse(f) == Frames.Received(p, acks);
    SameOutcome(w.peer.e, r, p, AckSet(acks));
    Numbers(w, exact);
    ReceiptCounts(w, f);
    NextKeepsInv(w, m, exact);
    Numbers(Next(w, m), exact);
  }

  /** Receiving numbers nothing. */
  lemma ReceiptCounts(w: World, f: seq<byte>)
    requires NoWrap(w) && f in w.out
    ensures NoWrap(Next(w, Move(true, Receive(f))))
  {
    hide Frames.Parse, Deliver, Fits, MergesSafely, IdsAgree;
  }

  lemma {:induction false} AllReceived(w: World, fs: seq<seq<byte>>, ps: seq<Packet>, r: Endpoint, exact: bool)
    requires Inv(w, exact) && (forall f :: f in fs ==> f in w.out) && CarryAll(fs, ps)
    requires SameReceiving(w.peer.e, r) && !FeedAll(r, ps).crashed
    ensures IsRun(w, Receipts(fs))
    ensures var w' := Run(w, Receipts(fs));
            && Inv(w', exact) && w'.me == w.me && SameReceiving(w'.peer.e, FeedAll(r, ps).e)
            && w'.peer.delivered == w.peer.delivered + BodiesOf(FeedAll(r, ps).handedUp)
    decreases |fs|
  {
    hide Inv, CanMove, Next, Fits, MergesSafely, PushRecvPacket, RecvPacket, Carries;
    if fs != [] {
      var m := Receipts(fs)[0];
      assert Carries(fs[0], ps[0]);
      ReceiveMove(w, fs[0], ps[0], r, exact);
      OneAtMost(r, ps[0], {});
      var (r', res) := Taken(r, ps[0]);
      assert Receipts(fs)[1..] == Receipts(fs[1..]);
      AllReceived(Next(w, m), fs[1..], ps[1..], r', exact);
      BodiesOfFirst(res, FeedAll(r', ps[1..]).handedUp);
    }
  }

  lemma BodiesOfFirst(res: Option<Packet>, rest: seq<Packet>)
    ensures BodiesOf((if res.Some? then [res.value] else []) + rest)
            == (if res.Some? then [res.value.body] else []) + BodiesOf(rest)
  {
  }

  // ---- all together ----

  /** The payloads are queued, one batch is sent, and its datagrams are received once each in the order sent. */
  function Exchange(e: Endpoint, ps: seq<Payload>, due: set<u32>): seq<Move>
    requires forall p :: p in ps ==> |p.body.bytes| <= LARGEST_BODY
  {
    Sends(ps) + ([Move(false, Action.BatchSend(false, due))] + Receipts(Datagrams(SendAll(e, ps), due)))
  }

  /**
   * From any reachable world whose receiver is up to date, with nothing queued or overdue: payloads whose datagrams are
   * read exactly are handed up in order and bit for bit, and the receiver is up to date again.
   */
  lemma EverythingArrives(w: World, ps: seq<Payload>, due: set<u32>, exact: bool)
    requires Inv(w, exact) && UpToDate(w.peer.e, w.me.e.sendSeq) && w.me.e.sendQueue == []
    requires forall p :: p in w.me.e.reliable ==> p.seqNo !in due
    requires HasRoom(w.me.e, ps)
    requires LegibleFrames(Batch(SendAll(w.me.e, ps), due), w.me.e.recvAcks, true)
    ensures forall p :: p in ps ==> |p.body.bytes| <= LARGEST_BODY
    ensures IsRun(w, Exchange(w.me.e, ps, due))
    ensures var w' := Run(w, Exchange(w.me.e, ps, due));
            && Inv(w', exact) && w'.peer.delivered == w.peer.delivered + PayloadsOf(ps)
            && UpToDate(w'.peer.e, w'.me.e.sendSeq) && w'.me.e.sendQueue == []
  {
    hide Inv, CanMove, Next, IsRun, Run, SendAll, Sends, Receipts, FeedAll, Datagrams, Sendable, LegibleFrames, Batch;
    Bounded(ps);
    AllSent(w, ps, exact);
    var w1 := Run(w, Sends(ps));
    var e1 := w1.me.e;
    var m := Move(false, Action.BatchSend(false, due));
    BatchMove(w1, due, exact);
    OneMove(w1, m);
    var w2 := Next(w1, m);
    var fs := Datagrams(e1, due);
    InOrderFeed(w.me.e, w.peer.e, ps);
    assert e1.sendQueue[|w.me.e.sendQueue|..] == e1.sendQueue;
    AllReceived(w2, fs, AsReceived(e1.sendQueue), w.peer.e, exact);
    RunConcat(w1, [m], Receipts(fs));
    RunConcat(w, Sends(ps), [m] + Receipts(fs));
  }
}
