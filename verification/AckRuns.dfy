/** The acks a side owes: which datagram of a batch carries which, and that none is ever dropped. */
module AckRuns {
  import opened Bits
  import opened Options
  import opened Packets
  import opened SiblingBodies
  import opened Endpoints
  import opened Network
  import opened Retransmits
  import Acks
  import Frames
  import Sending = SendProofs

  // ---- one batch ----

  lemma {:induction false} SortedIsUnique(s: seq<u32>)
    requires Acks.Increasing(s)
    ensures Acks.SortUnique(s) == s
  {
    if s != [] {
      SortedIsUnique(s[1..]);
      InsertSmallest(s[0], s[1..]);
    }
  }

  lemma InsertSmallest(x: u32, s: seq<u32>)
    requires Acks.Increasing([x] + s) && Acks.Increasing(s)
    ensures Acks.Insert(x, s) == [x] + s
  {
    if s != [] { assert ([x] + s)[0] < ([x] + s)[1]; }
  }

  /** What follows the first n sixteens. */
  function From(all: seq<u32>, n: nat): seq<u32> {
    all[Sending.Min(Acks.MAX_ACKS * n, |all|)..]
  }

  /** The n-th sixteen, or what there is of it. */
  function Sixteen(all: seq<u32>, n: nat): seq<u32> {
    all[Sending.Min(16 * n, |all|)..Sending.Min(16 * n + 16, |all|)]
  }

  lemma OneSixteenLess(all: seq<u32>, n: nat)
    ensures From(From(all, 1), n) == From(all, n + 1) && Sixteen(From(all, 1), n) == Sixteen(all, n + 1)
  {
  }

  /** Datagram n carries the n-th sixteen of the different pending acks in ascending order; the rest stays pending. */
  lemma {:induction false} AcksAt(pending: seq<u32>, n: nat)
    ensures Acks.Sent(AcksAfter(n, pending)) == Sixteen(Acks.SortUnique(pending), n)
    ensures n > 0 ==> AcksAfter(n, pending) == From(Acks.SortUnique(pending), n)
    decreases n
  {
    hide Acks.SortUnique, Acks.Increasing, Acks.Insert;
    if n > 0 {
      Acks.Partition(pending);
      var kept := Acks.Kept(pending);
      SortedIsUnique(kept);
      AcksAt(kept, n - 1);
      OneSixteenLess(Acks.SortUnique(pending), n - 1);
    }
  }

  /** A datagram that carries the ack of this number. */
  ghost predicate CarriesAck(f: seq<byte>, a: u32) {
    exists p: Packet, acks: seq<u32> ::
      Acks.Increasing(acks) && |acks| <= Acks.MAX_ACKS && a in acks && f == Frames.FrameBytes(p, acks)
  }

  /** Every pending ack is carried by a datagram of the batch, or is still pending after it. */
  lemma {:induction false} AckedOrPending(ps: seq<Packet>, pending: seq<u32>, a: u32)
    requires a in pending
    ensures a in AcksAfter(|ps|, pending) || exists f :: f in Wrap(ps, pending) && CarriesAck(f, a)
    decreases |ps|
  {
    hide Acks.Sent, Acks.Kept, Frames.FrameBytes;
    if ps != [] {
      Acks.Partition(pending);
      if a in Acks.Sent(pending) {
        assert CarriesAck(Wrap(ps, pending)[0], a);
      } else {
        AckedOrPending(ps[1..], Acks.Kept(pending), a);
      }
    }
  }

  /** Sixteen acks leave with every datagram while there are any. */
  lemma LeftPending(n: nat, pending: seq<u32>)
    requires n > 0
    ensures |AcksAfter(n, pending)| == |Acks.SortUnique(pending)| - Sending.Min(16 * n, |Acks.SortUnique(pending)|)
  {
    AcksAt(pending, n);
  }

  // ---- whole runs ----

  /** The number of every packet that arrived is still pending as an ack, or a datagram that carries it was sent. */
  ghost predicate NothingOwed(n: Node, out: set<seq<byte>>) {
    forall a :: a in n.seen ==> a in n.e.recvAcks || exists f :: f in out && CarriesAck(f, a)
  }

  ghost predicate AcksKept(w: World) {
    NothingOwed(w.me, w.out) && NothingOwed(w.peer, w.inc)
  }

  lemma BatchKeepsAcks(w: World, due: set<u32>)
    requires NothingOwed(w.me, w.out)
    ensures NothingOwed(BatchOn(w, due).me, BatchOn(w, due).out)
  {
    hide CarriesAck, Wrap, Batch, InOrder, AcksAfter;
    var e := w.me.e;
    forall a | a in w.me.seen
      ensures a in BatchOn(w, due).me.e.recvAcks || exists f :: f in BatchOn(w, due).out && CarriesAck(f, a)
    {
      if a in e.recvAcks { AckedOrPending(Batch(e, due), e.recvAcks, a); }
    }
  }

  lemma SendKeepsAcks(n: Node, body: Body, reliable: bool)
    requires Sendable(body)
    ensures SendOn(n, body, reliable).seen == n.seen && SendOn(n, body, reliable).e.recvAcks == n.e.recvAcks
  {
    SplitKeepsAcks(n.e, body, reliable);
  }

  lemma SplitKeepsAcks(e: Endpoint, body: Body, reliable: bool)
    requires |body.bytes| <= LARGEST_BODY
    ensures SendPacket(e, body, reliable).recvAcks == e.recvAcks
  {
    hide QueueAll, Split;
    SplitParts(body);
    if IsLarge(body) {
      var id := Wrap32(e.siblingId + 1);
      QueueKeepsAcks(e.(siblingId := id), Parts(body, id, reliable));
    }
  }

  lemma {:induction false} QueueKeepsAcks(e: Endpoint, ps: seq<Packet>)
    ensures QueueAll(e, ps).recvAcks == e.recvAcks
    decreases |ps|
  {
    if ps != [] { QueueKeepsAcks(AddToSendQueue(e, ps[0]), ps[1..]); }
  }

  /** A received packet's number is pending at once, whether it is handed up, waits or is dropped. */
  lemma ReceiveKeepsAcks(w: World, f: seq<byte>)
    requires NothingOwed(w.me, w.out)
    ensures NothingOwed(ReceiveOn(w, f).me, ReceiveOn(w, f).out)
  {
    hide CarriesAck, Frames.Parse, Fits, MergesSafely, IdsAgree, TakePacket, Unacked;
    var parsed := Frames.Parse(f);
    if parsed.Received? && Fits(w.me.e, parsed.packet) {
      PushAcks(w.me.e, parsed.packet, AckSet(parsed.acks));
    }
  }

  lemma PushAcks(e: Endpoint, p: Packet, acks: set<u32>)
    requires Fits(e, p)
    ensures PushRecvPacket(e, p, acks).recvAcks == e.recvAcks + [p.seqNo]
  {
    hide Unacked, MergedPacket, StorageFor;
  }

  lemma OtherSideUntouched(w: World, a: Action)
    requires Enabled(w, a)
    ensures Step(w, a).peer == w.peer && Step(w, a).inc == w.inc
    ensures a.Send? ==> Step(w, a).out == w.out
  {
    hide Frames.Parse, Fits, MergesSafely, IdsAgree, Deliver, Wrap, Batch, InOrder, Sendable;
  }

  lemma StepKeepsAcks(w: World, a: Action)
    requires AcksKept(w) && Enabled(w, a)
    ensures AcksKept(Step(w, a))
  {
    hide NothingOwed, BatchOn, ReceiveOn, SendOn, Sendable;
    OtherSideUntouched(w, a);
    match a
    case Send(body, reliable) =>
      SendKeepsAcks(w.me, body, reliable);
      SameAcks(w.me, SendOn(w.me, body, reliable), w.out);
    case BatchSend(unresponsive, due) => BatchKeepsAcks(w, due);
    case Receive(frame) => ReceiveKeepsAcks(w, frame);
  }

  lemma SameAcks(n: Node, n': Node, out: set<seq<byte>>)
    requires n'.seen == n.seen && n'.e.recvAcks == n.e.recvAcks && NothingOwed(n, out)
    ensures NothingOwed(n', out)
  {
  }

  /** No ack is ever dropped: in every run of two endpoints, legible or not, a number seen is pending or on its way. */
  lemma {:induction false} RunKeepsAcks(w: World, moves: seq<Move>)
    requires AcksKept(w) && IsRun(w, moves)
    ensures AcksKept(Run(w, moves))
    decreases |moves|
  {
    hide Step, Enabled, NothingOwed;
    if moves != [] {
      var m := moves[0];
      if m.byPeer { StepKeepsAcks(Flip(w), m.action); } else { StepKeepsAcks(w, m.action); }
      RunKeepsAcks(Next(w, m), moves[1..]);
    }
  }

  lemma NoAckDropped(moves: seq<Move>)
    requires IsRun(FRESH_WORLD, moves)
    ensures AcksKept(Run(FRESH_WORLD, moves))
  {
    hide Run, IsRun, CarriesAck;
    RunKeepsAcks(FRESH_WORLD, moves);
  }
}
