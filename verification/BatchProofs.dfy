/** What sending a batch does to both halves of the invariant. */
module BatchProofs {
  import opened Bits
  import opened Packets
  import opened SiblingBodies
  import opened Endpoints
  import opened Network
  import opened SendProofs
  import Acks
  import Frames

  lemma {:induction false} AcksShrink(n: nat, pending: seq<u32>)
    ensures forall a :: a in AcksAfter(n, pending) ==> a in pending
  {
    if n > 0 {
      Acks.Partition(pending);
      AcksShrink(n - 1, Acks.Kept(pending));
    }
  }

  /** A datagram for one of the packets with acks taken from the pending ones. */
  ghost predicate Wraps(f: seq<byte>, p: Packet, acks: seq<u32>, pending: seq<u32>, exact: bool) {
    && Acks.Increasing(acks) && |acks| <= Acks.MAX_ACKS && (forall a :: a in acks ==> a in pending)
    && f == Frames.FrameBytes(p, acks) && IsLegible(p, acks, exact)
  }

  lemma {:induction false} WrapFrames(ps: seq<Packet>, pending: seq<u32>, f: seq<byte>, exact: bool)
    requires f in Wrap(ps, pending) && LegibleFrames(ps, pending, exact)
    ensures exists p: Packet, acks: seq<u32> :: p in ps && Wraps(f, p, acks, pending, exact)
    decreases |ps|
  {
    hide Frames.FrameBytes, IsLegible, Acks.Sent, Acks.Kept;
    Acks.Partition(pending);
    if f == Wrap(ps, pending)[0] {
      assert Wraps(f, ps[0], Acks.Sent(pending), pending, exact);
    } else {
      WrapFrames(ps[1..], Acks.Kept(pending), f, exact);
      var p: Packet, acks: seq<u32> :| p in ps[1..] && Wraps(f, p, acks, Acks.Kept(pending), exact);
      assert Wraps(f, p, acks, pending, exact);
    }
  }

  /** The assertion made while the queue is moved over never fails on ascending packets. */
  lemma {:induction false} AssertionHolds(reliable: seq<Packet>, queue: seq<Packet>)
    requires Ascending(reliable + queue)
    ensures InOrder(reliable, queue)
    decreases |queue|
  {
    if queue != [] {
      hide Ascending;
      NextMoves(reliable, queue);
      if queue[0].reliable {
        AssertionHolds(reliable + [queue[0]], queue[1..]);
      } else {
        AssertionHolds(reliable, queue[1..]);
      }
    }
  }

  /** The front of the queue is newer than the packets before it; moving it over or dropping it keeps the order. */
  lemma NextMoves(reliable: seq<Packet>, queue: seq<Packet>)
    requires Ascending(reliable + queue) && queue != []
    ensures reliable == [] || reliable[|reliable| - 1].seqNo < queue[0].seqNo
    ensures Ascending((reliable + [queue[0]]) + queue[1..]) && Ascending(reliable + queue[1..])
  {
    hide Ascending;
    var all, k := reliable + queue, |reliable|;
    FrontMoved(reliable, queue);
    AscendingCut(all, k);
    if reliable != [] { AscendingAt(all, k); }
  }

  lemma FrontMoved<T>(a: seq<T>, b: seq<T>)
    requires b != []
    ensures (a + [b[0]]) + b[1..] == a + b && a + b[1..] == (a + b)[..|a|] + (a + b)[|a| + 1..]
  {
  }

  lemma AscendingAt(all: seq<Packet>, k: nat)
    requires Ascending(all) && 0 < k < |all|
    ensures all[k - 1].seqNo < all[k].seqNo
  {
  }

  lemma AscendingCut(all: seq<Packet>, k: nat)
    requires Ascending(all) && k < |all|
    ensures Ascending(all[..k] + all[k + 1..])
  {
    var cut := all[..k] + all[k + 1..];
    forall i, j | 0 <= i < j < |cut|
      ensures cut[i].seqNo < cut[j].seqNo
    {
      var i', j' := if i < k then i else i + 1, if j < k then j else j + 1;
      assert cut[i] == all[i'] && cut[j] == all[j'];
    }
  }

  lemma {:induction false} ReliableAscending(front: seq<Packet>, queue: seq<Packet>)
    requires Ascending(front + queue)
    ensures Ascending(front + Reliable(queue))
    decreases |queue|
  {
    hide Ascending;
    if queue != [] {
      NextMoves(front, queue);
      if queue[0].reliable {
        ReliableAscending(front + [queue[0]], queue[1..]);
        assert (front + [queue[0]]) + Reliable(queue[1..]) == front + Reliable(queue);
      } else {
        ReliableAscending(front, queue[1..]);
      }
    }
  }

  lemma BatchKeepsSender(n: Node, due: set<u32>)
    requires SenderOk(n)
    ensures SenderOk(n.(e := Endpoints.BatchSend(n.e, due)))
  {
    hide LogOk, PacketOk;
    var e := n.e;
    ReliableAscending(e.reliable, e.sendQueue);
    assert forall p :: p in e.reliable + Reliable(e.sendQueue) ==> p in e.reliable + e.sendQueue;
    assert e.reliable + Reliable(e.sendQueue) + [] == e.reliable + Reliable(e.sendQueue);
  }

  lemma BatchFrames(n: Node, due: set<u32>, f: seq<byte>, exact: bool)
    requires SenderOk(n) && (forall a :: a in n.e.recvAcks ==> a in n.seen)
    requires f in Wrap(Batch(n.e, due), n.e.recvAcks) && LegibleFrames(Batch(n.e, due), n.e.recvAcks, exact)
    ensures exists i: nat, acks: seq<u32> :: FrameOf(f, n, i, acks, exact)
  {
    hide Frames.FrameBytes, IsLegible, LogOk, PacketOk;
    WrapFrames(Batch(n.e, due), n.e.recvAcks, f, exact);
    var p: Packet, acks: seq<u32> :| p in Batch(n.e, due) && Wraps(f, p, acks, n.e.recvAcks, exact);
    assert p in n.e.reliable + n.e.sendQueue;
    assert FrameOf(f, n, p.seqNo - 1, acks, exact);
  }

  lemma BatchKeepsNet(net: set<seq<byte>>, n: Node, due: set<u32>, exact: bool)
    requires SenderOk(n) && NetOk(net, n, exact) && (forall a :: a in n.e.recvAcks ==> a in n.seen)
    requires LegibleFrames(Batch(n.e, due), n.e.recvAcks, exact)
    ensures NetOk(net + (set f | f in Wrap(Batch(n.e, due), n.e.recvAcks)),
            n.(e := Endpoints.BatchSend(n.e, due)), exact)
  {
    hide Frames.FrameBytes, IsLegible, LegibleFrames, SenderOk, Endpoints.BatchSend, Wrap, Batch;
    var n' := n.(e := Endpoints.BatchSend(n.e, due));
    var net' := net + (set f | f in Wrap(Batch(n.e, due), n.e.recvAcks));
    forall f | f in net'
      ensures exists i: nat, acks: seq<u32> :: FrameOf(f, n', i, acks, exact)
    {
      if f !in net { BatchFrames(n, due, f, exact); }
      var i: nat, acks: seq<u32> :| FrameOf(f, n, i, acks, exact);
      assert FrameOf(f, n', i, acks, exact);
    }
  }

  lemma BatchKeepsInv(w: World, due: set<u32>, exact: bool)
    requires Inv(w, exact) && LegibleFrames(Batch(w.me.e, due), w.me.e.recvAcks, exact)
    ensures Inv(BatchOn(w, due), exact)
  {
    hide Frames.FrameBytes, LegibleFrames, LogOk, PacketOk, GroupOf, NetOk;
    var e := w.me.e;
    var w' := BatchOn(w, due);
    AssertionHolds(e.reliable, e.sendQueue);
    BatchKeepsSender(w.me, due);
    BatchKeepsNet(w.out, w.me, due, exact);
    AcksShrink(|Batch(e, due)|, e.recvAcks);
    assert ReceiverOk(w.me, w.peer, exact) ==>
        ReceiverOk(w'.me, w.peer, exact) by { hide SenderOk; SameHistory(w.me, w'.me, w.peer, exact); }
  }

  /** What is received depends on the sender's history alone. */
  lemma SameHistory(s: Node, s': Node, r: Node, exact: bool)
    requires s.log == s'.log && s.all == s'.all && s.groups == s'.groups
    ensures ReceiverOk(s, r, exact) ==> ReceiverOk(s', r, exact)
  {
    hide MessageOk;
    if ReceiverOk(s, r, exact) {
      forall id | id in r.e.siblings
        ensures exists k: nat :: GroupOf(s', id, r.e.siblings[id], k)
      {
        var k: nat :| GroupOf(s, id, r.e.siblings[id], k);
        assert GroupOf(s', id, r.e.siblings[id], k);
      }
    }
  }
}
