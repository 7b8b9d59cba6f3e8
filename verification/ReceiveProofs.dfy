/** What receiving a datagram does to both halves of the invariant. */
module ReceiveProofs {
  import opened Bits
  import opened Options
  import opened Packets
  import opened SiblingBodies
  import opened Endpoints
  import opened Network
  import opened SendProofs
  import opened BatchProofs
  import Packed = PackedCode
  import Acks
  import Frames
  import Checksums

  // ---- the datagram parses back ----

  lemma SiblingsLength(p: Packet)
    ensures |Frames.SiblingBits(p)| <= 95 + 95 + 32
  {
    hide Packed.Encode;
    Packed.CodeLength(p.numSibs, 1);
    Packed.CodeLength(p.sibPos, 1);
  }

  lemma ShortHeader(p: Packet, acks: seq<u32>)
    requires p.body.nbits < 8 * (BLOCK + 1) && Acks.Increasing(acks) && |acks| <= Acks.MAX_ACKS
    ensures Frames.BitLength(p, acks) < 0x1_0000_0000 && |Frames.FrameBytes(p, acks)| < 0x1_0000
  {
    hide Packed.Encode, Acks.TableBits, Packed.Decode, StoreLE, Checksums.Value, PackBytes, Frames.SiblingBits;
    SiblingsLength(p);
    Acks.TableLength(acks);
    assert |Frames.NumberBits(p, acks)| <= 3000;
  }

  lemma Genuine(s: Node, f: seq<byte>, i: nat, acks: seq<u32>, exact: bool)
    requires SenderOk(s) && FrameOf(f, s, i, acks, exact)
    ensures Frames.Parse(f) == Frames.Received(Frames.Arriving(s.all[i], acks), acks)
    ensures exact ==> Frames.Arriving(s.all[i], acks) == s.all[i].(reliable := true)
  {
    hide Frames.FrameBytes, Frames.Parse, Frames.BitLength, Frames.Transparent, Frames.Readable, Frames.Arriving,
        LogOk, Ascending;
    var p := s.all[i];
    assert PacketOk(p);
    ShortHeader(p, acks);
    Frames.FrameParses(p, acks);
    Frames.ArrivingExactly(p, acks);
  }

  // ---- which message a packet belongs to ----

  /** Firsts and ends of the messages follow each other. */
  lemma {:induction false} FirstsAscend(log: seq<Message>, all: seq<Packet>, g: nat, k: nat, l: nat)
    requires LogOk(log, all, g) && k < l < |log|
    ensures log[k].first + log[k].count <= log[l].first
    decreases l - k
  {
    hide PartOf;
    assert MessageOk(log[l - 1], all, g);
    assert log[..l][l - 1] == log[l - 1];
    if k < l - 1 { FirstsAscend(log, all, g, k, l - 1); }
  }

  lemma {:induction false} Locate(log: seq<Message>, all: seq<Packet>, g: nat, i: nat, n: nat) returns (k: nat)
    requires LogOk(log, all, g) && n <= |log| && i < End(log[..n])
    ensures k < |log| && log[k].first - 1 <= i < log[k].first - 1 + log[k].count
    decreases n
  {
    var last := log[n - 1];
    assert log[..n][n - 1] == last && last.first == End(log[..n - 1]) + 1;
    if last.first - 1 <= i {
      k := n - 1;
    } else {
      k := Locate(log, all, g, i, n - 1);
    }
  }

  lemma MessageOf(s: Node, i: nat) returns (k: nat, j: nat)
    requires SenderOk(s) && i < |s.all|
    ensures k < |s.log| && MessageOk(s.log[k], s.all, s.groups) && j < s.log[k].count
    ensures s.log[k].first - 1 + j == i && s.all[i] == PartOf(s.log[k], j)
  {
    hide PartOf, PacketOk;
    assert s.log[..|s.log|] == s.log;
    k := Locate(s.log, s.all, s.groups, i, |s.log|);
    j := i - (s.log[k].first - 1);
  }

  lemma SameGroup(s: Node, k: nat, l: nat)
    requires LogOk(s.log, s.all, s.groups) && k < |s.log| && l < |s.log|
    requires s.log[k].total > 0 && s.log[l].total > 0 && s.log[k].sibId == s.log[l].sibId
    ensures k == l
  {
  }

  /** The message whose numbers come next is the next one to deliver. */
  lemma NextMessage(s: Node, r: Node, k: nat, exact: bool)
    requires SenderOk(s) && ReceiverOk(s, r, exact) && k < |s.log| && s.log[k].first == r.e.recvSeq + 1
    ensures k == |r.delivered|
  {
    hide PartOf, PacketOk;
    assert MessageOk(s.log[k], s.all, s.groups);
    var d := |r.delivered|;
    if d < |s.log| {
      assert MessageOk(s.log[d], s.all, s.groups);
      if k < d { FirstsAscend(s.log, s.all, s.groups, k, d); }
      if d < k { FirstsAscend(s.log, s.all, s.groups, d, k); }
    }
  }

  lemma AfterMessage(s: Node, k: nat)
    requires SenderOk(s) && k < |s.log|
    ensures s.log[k].first + s.log[k].count - 1 == if k + 1 < |s.log| then s.log[k + 1].first - 1 else |s.all|
  {
    hide MessageOk, PacketOk;
    assert s.log[..k + 1][k] == s.log[k];
    if k + 1 == |s.log| { assert s.log[..k + 1] == s.log; }
  }

  // ---- delivering ----

  /** Only whole payloads are misread. */
  lemma MisreadWhole(s: Node, i: nat, acks: seq<u32>, k: nat, j: nat, exact: bool)
    requires SenderOk(s) && i < |s.all| && k < |s.log| && MessageOk(s.log[k], s.all, s.groups) && j < s.log[k].count
    requires s.all[i] == PartOf(s.log[k], j)
    requires Acks.Increasing(acks) && |acks| <= Acks.MAX_ACKS && IsLegible(s.all[i], acks, exact)
    ensures Arrives(s, Frames.Arriving(s.all[i], acks), k, j, exact)
  {
    hide Split, LogOk, Frames.NumberBits, Packed.Decode, Ascending;
    assert PacketOk(s.all[i]);
    Frames.ArrivingExactly(s.all[i], acks);
  }

  /** The receiving node after packet p with its acks. */
  function Accept(r: Node, p: Packet, acks: set<u32>): Node
    requires r.e.avail == [] && Fits(r.e, p)
  {
    var x := RecvPacket(PushRecvPacket(r.e, p, acks));
    r.(e := x.0, seen := r.seen + {p.seqNo}, delivered := r.delivered + (if x.1.Some? then [x.1.value.body] else []))
  }

  /** Packet q of message m arrives as p: as it was sent, or, unless exact, cut. */
  predicate ArrivesAs(m: Message, q: Packet, p: Packet, exact: bool) {
    p == q.(reliable := true)
    || (!exact && p == q.(reliable := true, compressed := p.compressed, body := p.body) && ComesAs(m, p.body, false)
        && m.total == 0)
  }

  /** Packet p is part j of message k, as it arrives. */
  ghost predicate Arrives(s: Node, p: Packet, k: nat, j: nat, exact: bool) {
    && k < |s.log| && MessageOk(s.log[k], s.all, s.groups) && j < s.log[k].count
    && ArrivesAs(s.log[k], PartOf(s.log[k], j), p, exact)
  }

  lemma ArrivalFits(s: Node, r: Node, p: Packet, k: nat, j: nat, exact: bool)
    requires SenderOk(s) && ReceiverOk(s, r, exact) && Arrives(s, p, k, j, exact)
    ensures Fits(r.e, p) && IdsAgree(r.e, p)
    ensures p.HasSiblings() ==> |StorageFor(r.e, p)| == s.log[k].total && GroupOf(s, p.sibId, StorageFor(r.e, p), k)
  {
    hide Split, LogOk, PacketOk;
    if p.HasSiblings() && p.sibId in r.e.siblings {
      var l: nat :| GroupOf(s, p.sibId, r.e.siblings[p.sibId], l);
      SameGroup(s, k, l);
    }
  }

  /** The slots other than those of one group are still parts of messages. */
  lemma OtherGroups(s: Node, e: Endpoint, e': Endpoint, id: u32, slots: Storage, k: nat)
    requires forall i :: i in e.siblings ==> exists l: nat :: GroupOf(s, i, e.siblings[i], l)
    requires e'.siblings == e.siblings[id := slots] && GroupOf(s, id, slots, k)
    ensures forall i :: i in e'.siblings ==> exists l: nat :: GroupOf(s, i, e'.siblings[i], l)
  {
    hide GroupOf;
    forall i | i in e'.siblings
      ensures exists l: nat :: GroupOf(s, i, e'.siblings[i], l)
    {
      if i == id { assert GroupOf(s, i, e'.siblings[i], k); } else { assert e'.siblings[i] == e.siblings[i]; }
    }
  }

  /** A complete group merges into its message. */
  lemma Completed(s: Node, id: u32, slots: Storage, k: nat)
    requires SenderOk(s) && GroupOf(s, id, slots, k) && AllAvailable(slots)
    ensures slots != [] && s.log[k].count == s.log[k].total
    ensures MergedPacket(slots) == PartOf(s.log[k], 0).(reliable := true, body := s.log[k].body)
    ensures MergeFits(0, Bodies(slots))
  {
    hide LogOk, PacketOk, Split, Merge;
    var m := s.log[k];
    forall j | 0 <= j < |slots|
      ensures j < m.count && slots[j].value == PartOf(m, j).(reliable := true)
    {
      assert slots[j].Some?;
    }
    assert slots[m.total - 1].Some?;
    assert Bodies(slots) == Split(m.body);
    MergeSplit(m.body);
    SplitFits(0, m.body);
  }

  /** What the driver hands up, given the packet that became available. */
  lemma HandUp(s: Node, r: Node, e1: Endpoint, q: Packet, k: nat, exact: bool)
    requires SenderOk(s) && ReceiverOk(s, r, exact) && k < |s.log|
    requires q.seqNo == s.log[k].first && ComesAs(s.log[k], q.body, exact) && Advance(q) == s.log[k].count
    requires Complete(s.log[k])
    requires e1.avail == [q] && e1.recvSeq == r.e.recvSeq
    ensures var x := RecvPacket(e1);
            && x.0.avail == [] && x.0.siblings == e1.siblings && x.0.recvAcks == e1.recvAcks
            && x.0 == e1.(avail := [], recvSeq := x.0.recvSeq)
            && var d := r.delivered + (if x.1.Some? then [x.1.value.body] else []);
               && |d| <= |s.log| && (forall i :: 0 <= i < |d| ==> ComesAs(s.log[i], d[i], exact) && Complete(s.log[i]))
               && x.0.recvSeq == if |d| < |s.log| then s.log[|d|].first - 1 else |s.all|
  {
    hide PartOf, PacketOk, GroupOf, SenderOk, IsNext;
    if IsNext(e1, q) { NextHandedUp(s, r, e1, q, k, exact); }
  }

  lemma NextHandedUp(s: Node, r: Node, e1: Endpoint, q: Packet, k: nat, exact: bool)
    requires SenderOk(s) && ReceiverOk(s, r, exact) && k < |s.log| && e1.recvSeq == r.e.recvSeq && IsNext(e1, q)
    requires q.seqNo == s.log[k].first && Advance(q) == s.log[k].count
    ensures k == |r.delivered|
    ensures Wrap32(e1.recvSeq + Advance(q)) == if k + 1 < |s.log| then s.log[k + 1].first - 1 else |s.all|
  {
    hide SenderOk, ReceiverOk;
    Bounds(s, k);
    NextMessage(s, r, k, exact);
    AfterMessage(s, k);
  }

  lemma Bounds(s: Node, k: nat)
    requires SenderOk(s) && k < |s.log|
    ensures 1 <= s.log[k].first && s.log[k].first + s.log[k].count - 1 <= |s.all| < SEQUENCE_SPACE
  {
    hide PartOf, PacketOk;
    assert MessageOk(s.log[k], s.all, s.groups);
  }

  lemma WholeArrives(s: Node, r: Node, p: Packet, acks: set<u32>, k: nat, j: nat, exact: bool)
    requires SenderOk(s) && ReceiverOk(s, r, exact) && Arrives(s, p, k, j, exact) && r.e.avail == [] && !p.HasSiblings()
    ensures Fits(r.e, p) && MergesSafely(r.e, p) && IdsAgree(r.e, p) && ReceiverOk(s, Accept(r, p, acks), exact)
            && Accept(r, p, acks).e.avail == []
  {
    hide GroupOf, LogOk, PacketOk, Split, Unacked, RecvPacket;
    var e1 := PushRecvPacket(r.e, p, acks);
    assert e1.avail == [p];
    HandUp(s, r, e1, p, k, exact);
  }

  /** The packet merged from a complete group, as the driver needs it. */
  lemma CompletedAs(s: Node, id: u32, slots: Storage, k: nat, exact: bool)
    requires SenderOk(s) && GroupOf(s, id, slots, k) && AllAvailable(slots)
    ensures k < |s.log| && slots != [] && MergeFits(0, Bodies(slots)) && Complete(s.log[k])
    ensures var q := MergedPacket(slots);
            q.seqNo == s.log[k].first && ComesAs(s.log[k], q.body, exact) && Advance(q) == s.log[k].count
  {
    hide LogOk, PacketOk, Split, Merge, AllAvailable, MergeFits, Bodies;
    Completed(s, id, slots, k);
  }

  lemma PartArrives(s: Node, r: Node, p: Packet, acks: set<u32>, k: nat, j: nat, exact: bool)
    requires SenderOk(s) && ReceiverOk(s, r, exact) && Arrives(s, p, k, j, exact) && r.e.avail == [] && p.HasSiblings()
    ensures Fits(r.e, p) && MergesSafely(r.e, p) && IdsAgree(r.e, p) && ReceiverOk(s, Accept(r, p, acks), exact)
            && Accept(r, p, acks).e.avail == []
  {
    hide GroupOf, LogOk, PacketOk, Split, Unacked, RecvPacket, MergedPacket, ComesAs, Complete, AllAvailable, Bodies,
         MergeFits, PartOf, MessageOk, IdsAgree, ArrivesAs, Advance;
    ArrivalFits(s, r, p, k, j, exact);
    var e1 := PushRecvPacket(r.e, p, acks);
    var slots := StorageFor(r.e, p);
    if slots[p.sibPos].Some? {
      OtherGroups(s, r.e, e1, p.sibId, slots, k);
      NothingAvailable(e1);
    } else {
      var slots' := slots[p.sibPos := Some(p)];
      FilledSlot(s, p, slots, k, j, exact);
      if AllAvailable(slots') {
        CompletedAs(s, p.sibId, slots', k, exact);
        assert e1.avail == [MergedPacket(slots')];
        HandUp(s, r, e1, MergedPacket(slots'), k, exact);
      } else {
        OtherGroups(s, r.e, e1, p.sibId, slots', k);
        NothingAvailable(e1);
      }
    }
  }

  lemma NothingAvailable(e: Endpoint)
    requires e.avail == []
    ensures RecvPacket(e) == (e, None)
  {
  }

  lemma FilledSlot(s: Node, p: Packet, slots: Storage, k: nat, j: nat, exact: bool)
    requires Arrives(s, p, k, j, exact) && p.HasSiblings() && GroupOf(s, p.sibId, slots, k)
    ensures p.sibPos == j < |slots| && GroupOf(s, p.sibId, slots[j := Some(p)], k)
  {
    hide Split;
  }

  lemma AcceptKeepsReceiver(s: Node, r: Node, p: Packet, acks: set<u32>, k: nat, j: nat, exact: bool)
    requires SenderOk(s) && ReceiverOk(s, r, exact) && Arrives(s, p, k, j, exact) && r.e.avail == []
    ensures Fits(r.e, p) && MergesSafely(r.e, p) && IdsAgree(r.e, p) && ReceiverOk(s, Accept(r, p, acks), exact)
            && Accept(r, p, acks).e.avail == []
  {
    hide *;
    if p.HasSiblings() { PartArrives(s, r, p, acks, k, j, exact); } else { WholeArrives(s, r, p, acks, k, j, exact); }
  }

  // ---- the acknowledging half ----

  lemma {:induction false} UnackedAscending(front: seq<Packet>, ps: seq<Packet>, queue: seq<Packet>, acks: set<u32>)
    requires Ascending(front + ps + queue)
    ensures Ascending(front + Unacked(ps, acks) + queue)
    decreases |ps|
  {
    hide Ascending;
    if ps != [] {
      FrontMoved(front, ps);
      var rest := ps[1..];
      if ps[0].seqNo in acks {
        assert Unacked(ps, acks) == Unacked(rest, acks);
        hide Unacked;
        FrontCut(front, ps, queue);
        UnackedAscending(front, rest, queue, acks);
      } else {
        assert Unacked(ps, acks) == [ps[0]] + Unacked(rest, acks);
        hide Unacked;
        UnackedAscending(front + [ps[0]], rest, queue, acks);
        ConcatAssoc(front, [ps[0]], Unacked(rest, acks));
      }
    }
  }

  lemma FrontCut(front: seq<Packet>, ps: seq<Packet>, queue: seq<Packet>)
    requires ps != [] && Ascending(front + ps + queue)
    ensures Ascending(front + ps[1..] + queue)
  {
    hide Ascending;
    FrontMoved(front, ps);
    CutBefore(front + ps, queue, |front|);
    AscendingCut(front + ps + queue, |front|);
  }

  lemma CutBefore<T>(a: seq<T>, b: seq<T>, i: nat)
    requires i < |a|
    ensures (a + b)[..i] + (a + b)[i + 1..] == a[..i] + a[i + 1..] + b
  {
  }

  lemma AcceptShape(r: Node, p: Packet, acks: set<u32>)
    requires r.e.avail == [] && Fits(r.e, p)
    ensures var n := Accept(r, p, acks);
            && n.log == r.log && n.all == r.all && n.groups == r.groups && n.seen == r.seen + {p.seqNo}
            && n.e.sendSeq == r.e.sendSeq && n.e.siblingId == r.e.siblingId && n.e.sendQueue == r.e.sendQueue
            && n.e.reliable == Unacked(r.e.reliable, acks) && n.e.retransmit == Unacked(r.e.retransmit, acks)
  {
    hide MergedPacket, Unacked;
  }

  lemma AcceptKeepsSender(r: Node, s: Node, p: Packet, acks: set<u32>, net: set<seq<byte>>, exact: bool)
    requires Direction(r, s, net, exact) && Fits(r.e, p) && Accept(r, p, acks).e.avail == []
    requires forall a :: a in acks ==> a in s.seen
    ensures SenderOk(Accept(r, p, acks)) && NetOk(net, Accept(r, p, acks), exact) && NothingLost(Accept(r, p, acks), s)
    ensures ReceiverOk(Accept(r, p, acks), s, exact)
  {
    hide Accept, LogOk, PacketOk, GroupOf, NetOk;
    var n := Accept(r, p, acks);
    AcceptShape(r, p, acks);
    assert [] + r.e.reliable + r.e.sendQueue == r.e.reliable + r.e.sendQueue;
    UnackedAscending([], r.e.reliable, r.e.sendQueue, acks);
    assert [] + n.e.reliable + n.e.sendQueue == n.e.reliable + n.e.sendQueue;
    assert Unacked([], acks) == [];
    NetGrows(net, r, n, exact);
    SameHistory(r, n, s, exact);
  }

  lemma ReceiveKeepsInv(w: World, frame: seq<byte>, exact: bool)
    requires Inv(w, exact) && frame in w.inc
    ensures Inv(ReceiveOn(w, frame), exact)
  {
    hide SenderOk, ReceiverOk, NothingLost, Frames.FrameBytes, Frames.Parse, Frames.Arriving, PushRecvPacket,
        RecvPacket, PartOf, ArrivesAs;
    var i: nat, acks: seq<u32> :| FrameOf(frame, w.peer, i, acks, exact);
    Genuine(w.peer, frame, i, acks, exact);
    var k, j := MessageOf(w.peer, i);
    var p := Frames.Arriving(w.peer.all[i], acks);
    MisreadWhole(w.peer, i, acks, k, j, exact);
    assert Arrives(w.peer, p, k, j, exact);
    NoneAvailable(w.me);
    AcceptKeepsReceiver(w.peer, w.me, p, AckSet(acks), k, j, exact);
    AcceptKeepsSender(w.me, w.peer, p, AckSet(acks), w.out, exact);
    AcceptShape(w.me, p, AckSet(acks));
    LostNothing(w.peer, w.me, Accept(w.me, p, AckSet(acks)));
    assert ReceiveOn(w, frame) == w.(me := Accept(w.me, p, AckSet(acks)));
  }

  /** Any datagram in flight can be received: it parses, its slot exists, and completing its group loses nothing. */
  lemma Receivable(w: World, frame: seq<byte>, exact: bool)
    requires Inv(w, exact) && frame in w.inc
    ensures w.me.e.avail == [] && |frame| < 0x1_0000
    ensures var f := Frames.Parse(frame);
            f.Received? && Fits(w.me.e, f.packet) && MergesSafely(w.me.e, f.packet) && IdsAgree(w.me.e, f.packet)
  {
    hide SenderOk, ReceiverOk, NothingLost, Frames.FrameBytes, Frames.Parse, Frames.Arriving,
         PushRecvPacket, RecvPacket, PartOf, ArrivesAs, Fits, MergesSafely, IdsAgree;
    var i: nat, acks: seq<u32> :| FrameOf(frame, w.peer, i, acks, exact);
    Genuine(w.peer, frame, i, acks, exact);
    PacketsOk(w.peer);
    ShortHeader(w.peer.all[i], acks);
    var k, j := MessageOf(w.peer, i);
    MisreadWhole(w.peer, i, acks, k, j, exact);
    NoneAvailable(w.me);
    AcceptKeepsReceiver(w.peer, w.me, Frames.Arriving(w.peer.all[i], acks), AckSet(acks), k, j, exact);
  }

  lemma PacketsOk(n: Node)
    requires SenderOk(n)
    ensures forall i :: 0 <= i < |n.all| ==> PacketOk(n.all[i])
  {
  }

  lemma NoneAvailable(n: Node)
    requires SenderOk(n)
    ensures n.e.avail == []
  {
  }

  lemma LostNothing(s: Node, r: Node, r': Node)
    requires NothingLost(s, r) && r.seen <= r'.seen
    ensures NothingLost(s, r')
  {
  }
}
