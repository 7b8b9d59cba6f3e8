/** What queueing a payload does to the sender's half of the invariant. */
module SendProofs {
  import opened Bits
  import opened Packets
  import opened SiblingBodies
  import opened Endpoints
  import opened Network
  import Packed = PackedCode
  import Frames

  function Min(a: nat, b: nat): nat {
    if a < b then a else b
  }

  /** How many of n packets the queue still takes. */
  function Taken(e: Endpoint, n: nat): nat {
    if |e.sendQueue| >= QUEUE_CAPACITY then 0 else Min(n, QUEUE_CAPACITY - |e.sendQueue|)
  }

  function Renumbered(from: nat, ps: seq<Packet>): (r: seq<Packet>)
    requires from + |ps| < SEQUENCE_SPACE
    ensures |r| == |ps|
  {
    seq(|ps|, j requires 0 <= j < |ps| => ps[j].(seqNo := from + 1 + j))
  }

  lemma {:induction false} QueuedCount(e: Endpoint, ps: seq<Packet>)
    ensures |QueueAll(e, ps).sendQueue| == |e.sendQueue| + Taken(e, |ps|)
    ensures e.sendQueue <= QueueAll(e, ps).sendQueue
    decreases |ps|
  {
    if ps != [] { QueuedCount(AddToSendQueue(e, ps[0]), ps[1..]); }
  }

  /** A prefix of the packets is queued, numbered one after the other; nothing else changes. */
  lemma {:induction false} QueuedPackets(e: Endpoint, ps: seq<Packet>)
    requires e.sendSeq + Taken(e, |ps|) < SEQUENCE_SPACE
    ensures var k := Taken(e, |ps|);
            QueueAll(e, ps) == e.(sendSeq := e.sendSeq + k, sendQueue := e.sendQueue + Renumbered(e.sendSeq, ps[..k]))
    decreases |ps|
  {
    var k := Taken(e, |ps|);
    if k == 0 {
      NothingQueued(e, ps);
    } else {
      hide Renumbered;
      var e1 := AddToSendQueue(e, ps[0]);
      assert Taken(e1, |ps[1..]|) == k - 1;
      QueuedPackets(e1, ps[1..]);
      RenumberedFirst(e.sendQueue, e.sendSeq, ps, k);
    }
  }

  lemma RenumberedFirst(queue: seq<Packet>, from: nat, ps: seq<Packet>, k: nat)
    requires 0 < k <= |ps| && from + k < SEQUENCE_SPACE
    ensures queue + [ps[0].(seqNo := from + 1)] + Renumbered(from + 1, ps[1..][..k - 1])
            == queue + Renumbered(from, ps[..k])
  {
    assert [ps[0].(seqNo := from + 1)] + Renumbered(from + 1, ps[1..][..k - 1]) == Renumbered(from, ps[..k]);
  }

  lemma {:induction false} NothingQueued(e: Endpoint, ps: seq<Packet>)
    requires Taken(e, |ps|) == 0
    ensures QueueAll(e, ps) == e
    ensures e.sendQueue + [] == e.sendQueue
    decreases |ps|
  {
    if ps != [] { NothingQueued(e, ps[1..]); }
  }

  /** The packets a payload becomes, before they are numbered. */
  function Pieces(e: Endpoint, body: Body, reliable: bool): seq<Packet>
    requires |body.bytes| <= LARGEST_BODY
  {
    SplitParts(body);
    if IsLarge(body) then Parts(body, Wrap32(e.siblingId + 1), reliable) else [Part(body, 0, 0, 0, reliable)]
  }

  lemma SendQueues(e: Endpoint, body: Body, reliable: bool)
    requires |body.bytes| <= LARGEST_BODY
    ensures var e0 := if IsLarge(body) then e.(siblingId := Wrap32(e.siblingId + 1)) else e;
            SendPacket(e, body, reliable) == QueueAll(e0, Pieces(e, body, reliable))
  {
    if !IsLarge(body) {
      var ps := Pieces(e, body, reliable);
      var e1 := AddToSendQueue(e, ps[0]);
      assert QueueAll(e1, ps[1..]) == e1;
    }
  }

  /** Every packet the payload becomes has been queued. */
  predicate AllQueued(e: Endpoint, body: Body, reliable: bool)
    requires |body.bytes| <= LARGEST_BODY
  {
    |SendPacket(e, body, reliable).sendQueue| == |e.sendQueue| + |Pieces(e, body, reliable)|
  }

  /**
   * The answer is yes for every large payload, and for any other exactly if its packet was queued: it means that all
   * was queued, unless the payload is split and the queue has no room for some of its parts.
   */
  lemma SilentDrop(e: Endpoint, body: Body, reliable: bool)
    requires |body.bytes| <= LARGEST_BODY
    ensures SendResult(e, body) <==> IsLarge(body) || |SendPacket(e, body, reliable).sendQueue| == |e.sendQueue| + 1
    ensures (SendResult(e, body) ==> AllQueued(e, body, reliable))
            <==> (!IsLarge(body) || |e.sendQueue| + |Split(body)| <= QUEUE_CAPACITY)
  {
    SplitParts(body);
    SendQueues(e, body, reliable);
    var e0 := if IsLarge(body) then e.(siblingId := Wrap32(e.siblingId + 1)) else e;
    QueuedCount(e0, Pieces(e, body, reliable));
  }

  /** How many packets a payload adds to the queue. */
  lemma SentCount(e: Endpoint, body: Body, reliable: bool)
    requires |body.bytes| <= LARGEST_BODY
    ensures |SendPacket(e, body, reliable).sendQueue| == |e.sendQueue| + Taken(e, |Pieces(e, body, reliable)|)
  {
    hide SendPacket, Pieces;
    SendQueues(e, body, reliable);
    var e0 := if IsLarge(body) then e.(siblingId := Wrap32(e.siblingId + 1)) else e;
    QueuedCount(e0, Pieces(e, body, reliable));
  }

  /** The endpoint after a payload, as long as the numbers do not wrap. */
  lemma SentEndpoint(e: Endpoint, body: Body, reliable: bool)
    requires |body.bytes| <= LARGEST_BODY && e.sendSeq + Taken(e, |Pieces(e, body, reliable)|) < SEQUENCE_SPACE
    ensures var pieces := Pieces(e, body, reliable);
            var k := Taken(e, |pieces|);
            SendPacket(e, body, reliable)
            == e.(siblingId := if IsLarge(body) then Wrap32(e.siblingId + 1) else e.siblingId,
                  sendSeq := e.sendSeq + k, sendQueue := e.sendQueue + Renumbered(e.sendSeq, pieces[..k]))
  {
    hide SendPacket, Pieces, Renumbered;
    SendQueues(e, body, reliable);
    var e0 := if IsLarge(body) then e.(siblingId := Wrap32(e.siblingId + 1)) else e;
    QueuedPackets(e0, Pieces(e, body, reliable));
  }

  /** The new message, its packets and the endpoint after them. */
  lemma SendShape(n: Node, body: Body, reliable: bool)
    requires SenderOk(n) && Sendable(body) && |SendOn(n, body, reliable).all| < SEQUENCE_SPACE
    requires SendOn(n, body, reliable).groups < SEQUENCE_SPACE
    ensures var pieces := Pieces(n.e, body, reliable);
            var k := Taken(n.e, |pieces|);
            var n' := SendOn(n, body, reliable);
            && |n.all| + k < SEQUENCE_SPACE
            && n'.all == n.all + Renumbered(|n.all|, pieces[..k])
            && n'.e == n.e.(siblingId := n'.groups, sendSeq := |n.all| + k,
               sendQueue := n.e.sendQueue + Renumbered(|n.all|, pieces[..k]))
            && (k == 0 ==> n'.log == n.log)
            && (k > 0 ==> n'.log == n.log + [NewMessage(n, body, reliable, k)])
  {
    hide SendPacket, Pieces, Renumbered, LogOk, Ascending, PacketOk, Split;
    var pieces := Pieces(n.e, body, reliable);
    var k := Taken(n.e, |pieces|);
    SentCount(n.e, body, reliable);
    SentEndpoint(n.e, body, reliable);
    var e := SendPacket(n.e, body, reliable);
    assert k > 0 ==> e.sendQueue[|n.e.sendQueue|..] == Renumbered(|n.all|, pieces[..k]);
    if k == 0 { assert n.all + Renumbered(|n.all|, pieces[..k]) == n.all; }
  }

  function NewMessage(n: Node, body: Body, reliable: bool, k: nat): Message {
    Message(body, reliable, |n.all| + 1, k, if IsLarge(body) then |Split(body)| else 0,
        if IsLarge(body) then n.groups + 1 else 0)
  }

  lemma PiecesOk(n: Node, body: Body, reliable: bool, k: nat)
    requires Sendable(body) && (IsLarge(body) ==> n.groups + 1 < SEQUENCE_SPACE) && n.e.siblingId == n.groups
    requires 0 < k <= |Pieces(n.e, body, reliable)| && |n.all| + k < SEQUENCE_SPACE
    ensures var m := NewMessage(n, body, reliable, k);
            var ps := Renumbered(|n.all|, Pieces(n.e, body, reliable)[..k]);
            && (m.total == 0 <==> !IsLarge(body)) && (m.total == 0 ==> k == 1)
            && (m.total > 0 ==> m.total == |Split(body)| < SEQUENCE_SPACE && k <= m.total && body.WholeBytes() > 0)
            && forall j :: 0 <= j < k ==> PacketOk(ps[j]) && ps[j] == PartOf(m, j)
  {
    hide Packed.Decode, Split, BytesBits;
    SplitParts(body);
    var m, ps := NewMessage(n, body, reliable, k), Renumbered(|n.all|, Pieces(n.e, body, reliable)[..k]);
    forall j | 0 <= j < k
      ensures PacketOk(ps[j]) && ps[j] == PartOf(m, j)
    {
    }
  }

  /** The numbers held stay ascending exactly until the 32-bit counter wraps with a packet still held. */
  lemma AscendsUnlessWrapped(e: Endpoint, p: Packet)
    requires Ascending(e.reliable + e.sendQueue) && |e.sendQueue| < QUEUE_CAPACITY
    requires forall q :: q in e.reliable + e.sendQueue ==> q.seqNo <= e.sendSeq
    ensures var e' := AddToSendQueue(e, p);
            Ascending(e'.reliable + e'.sendQueue) <==> e.sendSeq + 1 < SEQUENCE_SPACE || e.reliable + e.sendQueue == []
  {
    var held, latest := e.reliable + e.sendQueue, p.(seqNo := Wrap32(e.sendSeq + 1));
    var e' := AddToSendQueue(e, p);
    assert e'.reliable + e'.sendQueue == held + [latest];
    OneMoreAscends(held, latest, e.sendSeq);
  }

  lemma OneMoreAscends(held: seq<Packet>, latest: Packet, last: nat)
    requires Ascending(held) && (forall q :: q in held ==> q.seqNo <= last)
             && (latest.seqNo == 0 || latest.seqNo == last + 1)
    ensures Ascending(held + [latest]) <==> latest.seqNo == last + 1 || held == []
  {
    var all := held + [latest];
    if held != [] {
      assert held[0] in held && all[0] == held[0] && all[|held|] == latest;
    }
    forall i | 0 <= i < |held|
      ensures held[i].seqNo <= last
    {
      assert held[i] in held;
    }
  }

  // ---- the invariant survives ----

  /** History only grows. */
  ghost predicate Extends(n: Node, n': Node) {
    n.all <= n'.all && n.log <= n'.log && n.groups <= n'.groups && n.seen <= n'.seen
  }

  lemma MessageOkGrows(m: Message, all: seq<Packet>, all': seq<Packet>, g: nat, g': nat)
    requires MessageOk(m, all, g) && all <= all' && |all'| < SEQUENCE_SPACE && g <= g' < SEQUENCE_SPACE
    ensures MessageOk(m, all', g')
  {
    hide Split, PartOf;
    forall j | 0 <= j < m.count
      ensures all'[m.first - 1 + j] == PartOf(m, j)
    {
      assert all[m.first - 1 + j] == PartOf(m, j);
    }
  }

  lemma LogGrows(log: seq<Message>, all: seq<Packet>, all': seq<Packet>, g: nat, g': nat)
    requires LogOk(log, all, g) && all <= all' && |all'| < SEQUENCE_SPACE && g <= g' < SEQUENCE_SPACE
    ensures forall k :: 0 <= k < |log| ==> MessageOk(log[k], all', g')
  {
    hide MessageOk;
    forall k | 0 <= k < |log|
      ensures MessageOk(log[k], all', g')
    {
      MessageOkGrows(log[k], all, all', g, g');
    }
  }

  /** One more message with the numbers that follow, and a fresh sibling id if it was split. */
  lemma LogAppend(log: seq<Message>, m: Message, all: seq<Packet>, ps: seq<Packet>, g: nat, g': nat)
    requires LogOk(log, all, g) && |all + ps| < SEQUENCE_SPACE && g <= g' < SEQUENCE_SPACE
    requires MessageOk(m, all + ps, g') && m.first == |all| + 1 && m.count == |ps| && (m.total > 0 ==> m.sibId > g)
    ensures LogOk(log + [m], all + ps, g')
  {
    var log' := log + [m];
    LogGrows(log, all, all + ps, g, g');
    forall k | 0 <= k < |log'|
      ensures MessageOk(log'[k], all + ps, g') && log'[k].first == End(log'[..k]) + 1
    {
      assert log'[..k] == log[..k];
      if k == |log| { assert log[..k] == log; }
    }
    forall k | 0 <= k < |log| && log[k].total > 0
      ensures log[k].sibId <= g
    {
      assert MessageOk(log[k], all, g);
    }
  }

  lemma SendKeepsLog(n: Node, body: Body, reliable: bool)
    requires SenderOk(n) && Sendable(body)
    requires |SendOn(n, body, reliable).all| < SEQUENCE_SPACE && SendOn(n, body, reliable).groups < SEQUENCE_SPACE
    ensures var n' := SendOn(n, body, reliable); LogOk(n'.log, n'.all, n'.groups) && Extends(n, n')
  {
    hide SendOn, Pieces, MessageOk, LogOk, Packed.Decode, Renumbered, IsLarge;
    var n' := SendOn(n, body, reliable);
    SendShape(n, body, reliable);
    GroupsGrow(n, body, reliable);
    var pieces := Pieces(n.e, body, reliable);
    var k := Taken(n.e, |pieces|);
    var ps := Renumbered(|n.all|, pieces[..k]);
    if k > 0 {
      NewMessageOk(n, body, reliable, k, n'.groups);
      LogAppend(n.log, NewMessage(n, body, reliable, k), n.all, ps, n.groups, n'.groups);
    } else {
      assert n'.all == n.all;
      LogSame(n.log, n.all, n.groups, n'.groups);
    }
  }

  lemma LogSame(log: seq<Message>, all: seq<Packet>, g: nat, g': nat)
    requires LogOk(log, all, g) && |all| < SEQUENCE_SPACE && g <= g' < SEQUENCE_SPACE
    ensures LogOk(log, all, g')
  {
    LogGrows(log, all, all, g, g');
  }

  lemma GroupsGrow(n: Node, body: Body, reliable: bool)
    requires Sendable(body)
    ensures SendOn(n, body, reliable).groups == n.groups + if IsLarge(body) then 1 else 0
    ensures SendOn(n, body, reliable).seen == n.seen && SendOn(n, body, reliable).delivered == n.delivered
  {
  }

  lemma NewMessageOk(n: Node, body: Body, reliable: bool, k: nat, groups: nat)
    requires Sendable(body) && n.e.siblingId == n.groups && 0 < k <= |Pieces(n.e, body, reliable)|
    requires |n.all| + k < SEQUENCE_SPACE && groups == n.groups + (if IsLarge(body) then 1 else 0) < SEQUENCE_SPACE
    ensures var all' := n.all + Renumbered(|n.all|, Pieces(n.e, body, reliable)[..k]);
            MessageOk(NewMessage(n, body, reliable, k), all', groups)
  {
    hide Pieces, Renumbered, Split, PacketOk, PartOf, MessageOk;
    PiecesOk(n, body, reliable, k);
    var m, ps := NewMessage(n, body, reliable, k), Renumbered(|n.all|, Pieces(n.e, body, reliable)[..k]);
    NumberedParts(m, n.all, ps, groups);
  }

  /** A message is in order if its packets follow those numbered before. */
  lemma NumberedParts(m: Message, all: seq<Packet>, ps: seq<Packet>, groups: nat)
    requires |all + ps| < SEQUENCE_SPACE && groups < SEQUENCE_SPACE && |m.body.bytes| <= LARGEST_BODY
    requires m.first == |all| + 1 && m.count == |ps| > 0
    requires m.total == 0 ==> m.count == 1 && m.sibId == 0
    requires m.total > 0 ==>
               && m.body.WholeBytes() > 0 && m.total == |Split(m.body)| < SEQUENCE_SPACE
               && m.count <= m.total && 1 <= m.sibId <= groups
    requires forall j :: 0 <= j < |ps| ==> ps[j] == PartOf(m, j)
    ensures MessageOk(m, all + ps, groups)
  {
    hide PartOf, Split;
    forall j | 0 <= j < m.count
      ensures (all + ps)[m.first - 1 + j] == PartOf(m, j)
    {
      assert (all + ps)[m.first - 1 + j] == ps[j];
    }
  }

  lemma SendKeepsSender(n: Node, body: Body, reliable: bool)
    requires SenderOk(n) && Sendable(body)
    requires |SendOn(n, body, reliable).all| < SEQUENCE_SPACE && SendOn(n, body, reliable).groups < SEQUENCE_SPACE
    ensures SenderOk(SendOn(n, body, reliable))
  {
    hide SendOn, Pieces, PacketOk, LogOk, Renumbered, PartOf, Packed.Decode;
    var n' := SendOn(n, body, reliable);
    SendShape(n, body, reliable);
    GroupsGrow(n, body, reliable);
    SendKeepsLog(n, body, reliable);
    var pieces := Pieces(n.e, body, reliable);
    var k := Taken(n.e, |pieces|);
    var ps := Renumbered(|n.all|, pieces[..k]);
    if k > 0 { PiecesOk(n, body, reliable, k); }
    RenumberedNumbers(|n.all|, pieces[..k]);
    assert n'.e.reliable + n'.e.sendQueue == (n.e.reliable + n.e.sendQueue) + ps;
    NewestLast(n.e.reliable + n.e.sendQueue, n.all, ps);
  }

  lemma RenumberedNumbers(from: nat, ps: seq<Packet>)
    requires from + |ps| < SEQUENCE_SPACE
    ensures forall j :: 0 <= j < |ps| ==> Renumbered(from, ps)[j].seqNo == from + 1 + j
  {
  }

  lemma NewestLast(held: seq<Packet>, all: seq<Packet>, ps: seq<Packet>)
    requires Ascending(held) && (forall p :: p in held ==> Numbered(p, all))
    requires forall j :: 0 <= j < |ps| ==> ps[j].seqNo == |all| + 1 + j
    ensures Ascending(held + ps) && forall p :: p in held + ps ==> Numbered(p, all + ps)
  {
    forall i | 0 <= i < |held|
      ensures held[i].seqNo <= |all|
    {
      assert held[i] in held;
    }
  }

  // ---- what a longer history of the sender means to the rest ----

  lemma NetGrows(net: set<seq<byte>>, s: Node, s': Node, exact: bool)
    requires NetOk(net, s, exact) && Extends(s, s')
    ensures NetOk(net, s', exact)
  {
    hide Frames.FrameBytes;
    forall f | f in net
      ensures exists i: nat, acks: seq<u32> :: FrameOf(f, s', i, acks, exact)
    {
      var i: nat, acks: seq<u32> :| FrameOf(f, s, i, acks, exact);
      assert FrameOf(f, s', i, acks, exact);
    }
  }

  lemma GroupGrows(s: Node, s': Node, id: u32, slots: Storage, k: nat)
    requires GroupOf(s, id, slots, k) && Extends(s, s') && |s'.all| < SEQUENCE_SPACE && s'.groups < SEQUENCE_SPACE
    ensures GroupOf(s', id, slots, k)
  {
    hide Split;
    MessageOkGrows(s.log[k], s.all, s'.all, s.groups, s'.groups);
  }

  /** The number expected next does not depend on what is queued later. */
  lemma ExpectedStays(s: Node, s': Node, d: nat)
    requires LogOk(s.log, s.all, s.groups) && LogOk(s'.log, s'.all, s'.groups) && Extends(s, s') && d <= |s.log|
    ensures (if d < |s.log| then s.log[d].first - 1 else |s.all|) ==
            if d < |s'.log| then s'.log[d].first - 1 else |s'.all|
  {
    hide MessageOk;
    if d == |s.log| {
      if d < |s'.log| { assert s'.log[..d] == s.log; } else { assert s'.log == s.log; }
    }
  }

  lemma ReceiverGrows(s: Node, s': Node, r: Node, exact: bool)
    requires ReceiverOk(s, r, exact) && LogOk(s.log, s.all, s.groups) && LogOk(s'.log, s'.all, s'.groups)
             && Extends(s, s')
    requires |s'.all| < SEQUENCE_SPACE && s'.groups < SEQUENCE_SPACE
    ensures ReceiverOk(s', r, exact)
  {
    hide LogOk, GroupOf, ComesAs, Complete;
    ExpectedStays(s, s', |r.delivered|);
    forall id | id in r.e.siblings
      ensures exists k: nat :: GroupOf(s', id, r.e.siblings[id], k)
    {
      var k: nat :| GroupOf(s, id, r.e.siblings[id], k);
      GroupGrows(s, s', id, r.e.siblings[id], k);
    }
  }
}
