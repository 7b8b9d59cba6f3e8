/** Which payloads keep every run legible, and runs in which the others are misread. */
module Legibility {
  import opened Bits
  import opened Options
  import opened Packets
  import opened SiblingBodies
  import opened Endpoints
  import opened Network
  import opened NetworkSafety
  import opened Deliveries
  import opened LosslessRuns
  import Acks
  import Frames
  import Packed = PackedCode
  import Sending = SendProofs
  import Batches = BatchProofs
  import Receiving = ReceiveProofs

  // ---- payloads ----

  /** The payload starts with the packed number that opens a link. */
  predicate StartsConnect(body: Body) {
    Packed.Decode(body.Bits(), 1, 0).value == Frames.CONNECT
  }

  /** Split payloads and those with another first number; unless exact, also those of at least eight bits. */
  predicate Sound(body: Body, exact: bool) {
    IsLarge(body) || !StartsConnect(body) || (!exact && body.nbits >= 8)
  }

  predicate SoundMoves(moves: seq<Move>, exact: bool) {
    forall m :: m in moves && m.action.Send? ==> Sound(m.action.body, exact)
  }

  predicate SoundPacket(p: Packet, exact: bool) {
    p.Command() != Frames.CONNECT || (!exact && p.body.nbits >= 8)
  }

  predicate SoundNode(n: Node, exact: bool) {
    forall p :: p in n.all ==> SoundPacket(p, exact)
  }

  lemma {:induction false} SoundFrames(ps: seq<Packet>, pending: seq<u32>, exact: bool)
    requires forall p :: p in ps ==> SoundPacket(p, exact)
    ensures LegibleFrames(ps, pending, exact)
    decreases |ps|
  {
    hide Acks.Sent, Acks.Kept, Frames.NumberBits, Packed.Decode;
    if ps != [] {
      Acks.Partition(pending);
      assert SoundPacket(ps[0], exact);
      SoundFrames(ps[1..], Acks.Kept(pending), exact);
    }
  }

  lemma SoundRenumbered(from: nat, ps: seq<Packet>, exact: bool)
    requires from + |ps| < SEQUENCE_SPACE && forall p :: p in ps ==> SoundPacket(p, exact)
    ensures forall p :: p in Sending.Renumbered(from, ps) ==> SoundPacket(p, exact)
  {
    hide Packed.Decode;
    var r := Sending.Renumbered(from, ps);
    forall i | 0 <= i < |r|
      ensures SoundPacket(r[i], exact)
    {
      assert ps[i] in ps && r[i] == ps[i].(seqNo := from + 1 + i);
    }
  }

  lemma SendKeepsSound(n: Node, body: Body, reliable: bool, exact: bool)
    requires SenderOk(n) && Sendable(body) && Sound(body, exact) && SoundNode(n, exact)
    requires |SendOn(n, body, reliable).all| < SEQUENCE_SPACE && SendOn(n, body, reliable).groups < SEQUENCE_SPACE
    ensures SoundNode(SendOn(n, body, reliable), exact)
  {
    hide SenderOk, SendOn, Sending.Pieces, Sending.Renumbered, SoundPacket, Sound;
    Sending.SendShape(n, body, reliable);
    if IsLarge(body) { Sending.GroupsGrow(n, body, reliable); }
    var pieces := Sending.Pieces(n.e, body, reliable);
    var k := Sending.Taken(n.e, |pieces|);
    SiblingIs(n);
    SoundPiecesOf(n, body, reliable, exact);
    SoundRenumbered(|n.all|, pieces[..k], exact);
  }

  lemma SiblingIs(n: Node)
    requires SenderOk(n)
    ensures n.e.siblingId == n.groups
  {
  }

  lemma SoundPiecesOf(n: Node, body: Body, reliable: bool, exact: bool)
    requires Sendable(body) && Sound(body, exact) && n.e.siblingId == n.groups
    requires IsLarge(body) ==> n.groups + 1 < SEQUENCE_SPACE
    ensures forall p :: p in Sending.Pieces(n.e, body, reliable) ==> SoundPacket(p, exact)
  {
    hide Packed.Decode, Split;
    SplitParts(body);
  }

  /** The packets of a batch were all numbered. */
  lemma SoundBatch(n: Node, due: set<u32>, exact: bool)
    requires SenderOk(n) && SoundNode(n, exact)
    ensures LegibleFrames(Batch(n.e, due), n.e.recvAcks, exact)
  {
    hide LogOk, PacketOk, Ascending, SoundPacket, LegibleFrames;
    forall p | p in Batch(n.e, due)
      ensures SoundPacket(p, exact)
    {
      assert p in n.e.reliable + n.e.sendQueue;
    }
    SoundFrames(Batch(n.e, due), n.e.recvAcks, exact);
  }

  lemma SoundStep(w: World, a: Action, exact: bool)
    requires Inv(w, exact) && Enabled(w, a) && NoWrap(Step(w, a)) && (a.Send? ==> Sound(a.body, exact))
    requires SoundNode(w.me, exact) && SoundNode(w.peer, exact)
    ensures Legible(w, a, exact) && SoundNode(Step(w, a).me, exact) && SoundNode(Step(w, a).peer, exact)
  {
    hide SenderOk, ReceiverOk, NetOk, SoundPacket, Sound, SendOn, LegibleFrames, Deliver, Frames.Parse, Fits,
         MergesSafely, IdsAgree, Wrap, Sendable;
    match a
    case Send(body, reliable) => SendKeepsSound(w.me, body, reliable, exact);
    case BatchSend(unresponsive, due) => SoundBatch(w.me, due, exact);
    case Receive(frame) =>
  }

  lemma SoundNext(w: World, m: Move, exact: bool)
    requires Inv(w, exact) && CanMove(w, m) && NoWrap(Next(w, m)) && (m.action.Send? ==> Sound(m.action.body, exact))
    requires SoundNode(w.me, exact) && SoundNode(w.peer, exact)
    ensures LegibleMove(w, m, exact) && Inv(Next(w, m), exact)
    ensures SoundNode(Next(w, m).me, exact) && SoundNode(Next(w, m).peer, exact)
  {
    hide Inv, Step, Enabled, Legible, SoundNode, Sound;
    if m.byPeer {
      FlipKeepsInv(w, exact);
      SoundStep(Flip(w), m.action, exact);
    } else {
      SoundStep(w, m.action, exact);
    }
    NextKeepsInv(w, m, exact);
  }

  lemma {:induction false} SoundFrom(w: World, moves: seq<Move>, exact: bool)
    requires Inv(w, exact) && IsRun(w, moves) && NoWrap(Run(w, moves)) && SoundMoves(moves, exact)
    requires SoundNode(w.me, exact) && SoundNode(w.peer, exact)
    ensures LegibleRun(w, moves, exact)
    decreases |moves|
  {
    hide Inv, NoWrap, Next, CanMove, LegibleMove, SoundNode, Sound;
    if moves != [] {
      NoWrapFromStart(Next(w, moves[0]), moves[1..]);
      SoundNext(w, moves[0], exact);
      SoundFrom(Next(w, moves[0]), moves[1..], exact);
    }
  }

  /**
   * A run whose payloads are sound is legible, whatever the network does: what is known of legible runs holds if no
   * payload that starts with the packed number 1 is shorter than a byte, and exactly so if no payload starts with it.
   */
  lemma SoundRuns(moves: seq<Move>, exact: bool)
    requires IsRun(FRESH_WORLD, moves) && NoWrap(Run(FRESH_WORLD, moves)) && SoundMoves(moves, exact)
    ensures LegibleRun(FRESH_WORLD, moves, exact)
  {
    hide Inv, NoWrap, Next, CanMove, LegibleMove, Sound;
    FreshWorldOk(exact);
    SoundFrom(FRESH_WORLD, moves, exact);
  }

  // ---- what is not legible ----

  /** Every datagram of a batch can be read exactly if the batch is legible. */
  lemma {:induction false} LegibleExactly(n: Node, ps: seq<Packet>, pending: seq<u32>)
    requires SenderOk(n) && forall p :: p in ps ==> Numbered(p, n.all)
    ensures (forall f :: f in Wrap(ps, pending) ==> !Frames.Parse(f).Malformed?) <==> LegibleFrames(ps, pending, false)
    decreases |ps|
  {
    hide Frames.FrameBytes, Frames.Parse, Frames.Arriving, Frames.Readable, SenderOk, Acks.Sent, Acks.Kept;
    if ps != [] {
      Acks.Partition(pending);
      assert ps[0] in ps;
      ParsesIf(n, ps[0], Acks.Sent(pending));
      LegibleExactly(n, ps[1..], Acks.Kept(pending));
      var fs := Wrap(ps, pending);
      assert fs == [fs[0]] + fs[1..];
    }
  }

  lemma ParsesIf(n: Node, p: Packet, acks: seq<u32>)
    requires SenderOk(n) && Numbered(p, n.all) && Acks.Increasing(acks) && |acks| <= Acks.MAX_ACKS
    ensures !Frames.Parse(Frames.FrameBytes(p, acks)).Malformed? <==> Frames.Readable(p, acks)
    ensures IsLegible(p, acks, false) <==> Frames.Readable(p, acks)
  {
    hide Frames.FrameBytes, Frames.Parse, Frames.BitLength, Frames.Arriving, Frames.Readable, LogOk, Ascending;
    assert PacketOk(p);
    Receiving.ShortHeader(p, acks);
    Frames.FrameParses(p, acks);
  }

  /**
   * A batch after which some datagram in flight fails an assertion of its receiver: exactly one that is not legible.
   */
  lemma IllegibleCrashes(w: World, due: set<u32>, exact: bool)
    requires Inv(w, exact)
    ensures var w' := Flip(BatchOn(w, due));
            !LegibleFrames(Batch(w.me.e, due), w.me.e.recvAcks, false)
            <==> exists f :: f in Datagrams(w.me.e, due) && Enabled(w', Receive(f)) && Frames.Parse(f).Malformed?
    ensures var w' := Flip(BatchOn(w, due));
            forall f :: Enabled(w', Receive(f)) && Frames.Parse(f).Malformed? ==> Step(w', Receive(f)).crashed
  {
    hide Frames.Parse, LegibleFrames, Wrap, SenderOk, ReceiverOk, NetOk, InOrder;
    QueueAndReliable(w, exact);
    LegibleExactly(w.me, Batch(w.me.e, due), w.me.e.recvAcks);
  }

  lemma QueueAndReliable(w: World, exact: bool)
    requires Inv(w, exact)
    ensures SenderOk(w.me) && forall due: set<u32>, p :: p in Batch(w.me.e, due) ==> Numbered(p, w.me.all)
  {
    hide LogOk, Ascending, PacketOk, GroupOf, ReceiverOk;
    forall due: set<u32>, p | p in Batch(w.me.e, due)
      ensures Numbered(p, w.me.all)
    {
      assert p in w.me.e.reliable + w.me.e.sendQueue;
    }
  }

  // ---- a run in which a payload is misread ----

  /** With the acks 1 and 3 the numbers in front of a whole payload end on a byte boundary. */
  lemma NumbersEnd(p: Packet)
    requires !p.HasSiblings()
    ensures Acks.Increasing([1, 3]) && |Frames.NumberBits(p, [1, 3])| == 72
  {
    hide ToBits;
    var acks: seq<u32> := [1, 3];
    assert acks[1..] == [3] && [3][1..] == [];
    assert Packed.Mask(1) == 1;
    assert |Packed.Encode(2, 1)| == 3 by { Packed.EncodeMore(2, 1); Packed.EncodeLast(1, 2); }
    assert |Packed.Encode(1, 1)| == 3 by { Packed.EncodeMore(1, 1); Packed.EncodeLast(0, 2); }
    assert |Packed.Encode(0, 1)| == 1 by { Packed.EncodeLast(0, 1); }
    assert Acks.DeltaBits(3, []) == [];
    assert Acks.DeltaBits(1, [3]) == Packed.Encode(1, 1) + Acks.DeltaBits(3, []);
  }

  lemma PendingAcks()
    ensures Acks.Sent([1, 3]) == [1, 3]
  {
    assert Acks.SortUnique([3]) == [3] by { assert Acks.SortUnique([]) == [] && [3][1..] == []; }
    assert [1, 3][1..] == [3];
    assert Acks.SortUnique([1, 3]) == [1, 3];
  }

  function Whole(seqNo: u32, body: Body, isReliable: bool): Packet {
    Packet(seqNo, 0, 0, 0, isReliable, false, body)
  }

  /** Three payloads are sent in one batch. */
  function ThreeSent(other: Body): seq<Move> {
    var o := Payload(other, true);
    Sends([o, o, o]) + [Move(false, Action.BatchSend(false, {}))]
  }

  /** The first and the third datagram are received; the second is lost. */
  function TwoArrive(other: Body): seq<Move> {
    [Move(true, Receive(Frames.FrameBytes(Whole(1, other, true), []))),
     Move(true, Receive(Frames.FrameBytes(Whole(3, other, true), [])))]
  }

  /** The other side answers, and its datagram is received. */
  function AnswerMoves(body: Body): seq<Move> {
    [Move(true, Send(body, true)), Move(true, Action.BatchSend(false, {})), Move(false, Receive(Answer(body)))]
  }

  /** The answer acknowledges the first and the third payload. */
  function Answer(body: Body): seq<byte> {
    Frames.FrameBytes(Whole(1, body, true), [1, 3])
  }

  lemma Extend(w0: World, ms: seq<Move>, w: World, m: Move)
    requires IsRun(w0, ms) && Run(w0, ms) == w && CanMove(w, m)
    ensures IsRun(w0, ms + [m]) && Run(w0, ms + [m]) == Next(w, m)
  {
    hide IsRun, Run, CanMove, Next;
    OneMove(w, m);
    RunConcat(w0, ms, [m]);
  }

  /** The three payloads as they are queued. */
  lemma ThreeQueued(o: Payload)
    requires Sendable(o.body) && !IsLarge(o.body) && o.isReliable
    ensures HasRoom(FRESH_ENDPOINT, [o, o, o]) && forall p :: p in [o, o, o] ==> |p.body.bytes| <= LARGEST_BODY
    ensures SendAll(FRESH_ENDPOINT, [o, o, o])
         == FRESH_ENDPOINT.(sendSeq := 3,
             sendQueue := [Whole(1, o.body, true), Whole(2, o.body, true), Whole(3, o.body, true)])
  {
    hide Packed.Decode;
    var e0 := FRESH_ENDPOINT;
    var e1 := SendPacket(e0, o.body, true);
    var e2 := SendPacket(e1, o.body, true);
    var e3 := SendPacket(e2, o.body, true);
    assert [o, o, o][1..] == [o, o] && [o, o][1..] == [o] && [o][1..] == [];
    assert SendAll(e3, []) == e3 && PacketCount([]) == 0;
    assert SendAll(e2, [o]) == e3 && PacketCount([o]) == 1;
    assert SendAll(e1, [o, o]) == e3 && PacketCount([o, o]) == 2;
  }

  /** Without pending acks each packet travels alone. */
  lemma {:induction false} WrapsAlone(ps: seq<Packet>)
    ensures forall i :: 0 <= i < |ps| ==> Wrap(ps, [])[i] == Frames.FrameBytes(ps[i], [])
    decreases |ps|
  {
    hide Frames.FrameBytes;
    Acks.Partition([]);
    assert Acks.Sent([]) == [] && Acks.Kept([]) == [];
    if ps != [] { WrapsAlone(ps[1..]); }
  }

  /** A whole packet arrives at a side that waits for no ack. */
  lemma WholeReceived(w: World, f: seq<byte>, p: Packet)
    requires f in w.out && Carries(f, p) && !p.HasSiblings() && w.peer.e.avail == []
    requires w.peer.e.reliable == [] && w.peer.e.retransmit == []
    ensures var m := Move(true, Receive(f));
            CanMove(w, m) && var e := Next(w, m).peer.e;
              && e == w.peer.e.(recvSeq := e.recvSeq, recvAcks := w.peer.e.recvAcks + [p.seqNo])
              && Next(w, m).me == w.me && Next(w, m).out == w.out && Next(w, m).crashed == w.crashed
  {
    hide Frames.Parse;
    var acks: seq<u32> :| Frames.Parse(f) == Frames.Received(p, acks);
  }

  lemma TwoMoves(w0: World, ms: seq<Move>, w: World, m1: Move, m2: Move)
    requires IsRun(w0, ms) && Run(w0, ms) == w && CanMove(w, m1) && CanMove(Next(w, m1), m2)
    ensures IsRun(w0, ms + [m1, m2]) && Run(w0, ms + [m1, m2]) == Next(Next(w, m1), m2)
  {
    hide IsRun, Run, CanMove, Next;
    Extend(w0, ms, w, m1);
    Extend(w0, ms + [m1], Next(w, m1), m2);
    assert ms + [m1] + [m2] == ms + [m1, m2];
  }

  lemma AfterThreeSent(other: Body) returns (w: World)
    requires Sendable(other) && !IsLarge(other) && !StartsConnect(other)
    ensures IsRun(FRESH_WORLD, ThreeSent(other)) && Run(FRESH_WORLD, ThreeSent(other)) == w
    ensures !w.crashed && w.me.e.avail == [] && w.me.e.recvSeq == 0 && w.me.delivered == [] && w.peer == FRESH_NODE
    ensures forall k: u32 :: k == 1 || k == 3 ==>
              var f := Frames.FrameBytes(Whole(k, other, true), []); f in w.out && Carries(f, Whole(k, other, true))
  {
    hide Inv, Frames.FrameBytes, CanMove, Next, IsRun, Run, Sends, SendAll, LegibleFrames, Packed.Decode,
        Carries, InOrder;
    var o := Payload(other, true);
    var ps, b := [o, o, o], Move(false, Action.BatchSend(false, {}));
    FreshWorldOk(true);
    ThreeQueued(o);
    AllSent(FRESH_WORLD, ps, true);
    var w1 := Run(FRESH_WORLD, Sends(ps));
    var q := w1.me.e.sendQueue;
    NoneOverdue([], {}, QUEUE_CAPACITY);
    assert Batch(w1.me.e, {}) == q;
    SoundFrames(q, [], true);
    BatchMove(w1, {}, true);
    Extend(FRESH_WORLD, Sends(ps), w1, b);
    w := Next(w1, b);
    Numbers(w, true);
    SentOnly(FRESH_WORLD, ps);
    WrapsAlone(q);
    var fs := Datagrams(w1.me.e, {});
    assert Carries(fs[0], AsReceived(q)[0]) && Carries(fs[2], AsReceived(q)[2]);
    assert fs[0] in fs && fs[2] in fs;
  }

  /** Sending hands up nothing. */
  lemma {:induction false} SentOnly(w: World, ps: seq<Payload>)
    requires IsRun(w, Sends(ps))
    ensures Run(w, Sends(ps)).me.delivered == w.me.delivered
    decreases |ps|
  {
    hide SendPacket, Split;
    if ps != [] {
      assert Sends(ps)[1..] == Sends(ps[1..]);
      SentOnly(Next(w, Sends(ps)[0]), ps[1..]);
    }
  }

  lemma TwoReceived(other: Body) returns (w: World)
    requires Sendable(other) && !IsLarge(other) && !StartsConnect(other)
    ensures IsRun(FRESH_WORLD, ThreeSent(other) + TwoArrive(other))
            && Run(FRESH_WORLD, ThreeSent(other) + TwoArrive(other)) == w
    ensures !w.crashed && w.me.e.avail == [] && w.me.e.recvSeq == 0 && w.me.delivered == []
    ensures w.peer.e == FRESH_ENDPOINT.(recvSeq := w.peer.e.recvSeq, recvAcks := [1, 3])
  {
    hide Frames.FrameBytes, CanMove, Next, IsRun, Run, ThreeSent, Carries, Packed.Decode, Sendable;
    var w0 := AfterThreeSent(other);
    var p1, p3 := Whole(1, other, true), Whole(3, other, true);
    var f1, f3 := Frames.FrameBytes(p1, []), Frames.FrameBytes(p3, []);
    WholeReceived(w0, f1, p1);
    var w1 := Next(w0, Move(true, Receive(f1)));
    WholeReceived(w1, f3, p3);
    w := Next(w1, Move(true, Receive(f3)));
    TwoMoves(FRESH_WORLD, ThreeSent(other), w0, Move(true, Receive(f1)), Move(true, Receive(f3)));
  }

  lemma AnswerQueued(w: World, body: Body)
    requires Sendable(body) && !IsLarge(body)
    requires w.peer.e == FRESH_ENDPOINT.(recvSeq := w.peer.e.recvSeq, recvAcks := [1, 3])
    ensures var m := Move(true, Send(body, true));
            CanMove(w, m) && Next(w, m) == w.(peer := Next(w, m).peer)
            && Next(w, m).peer.e == w.peer.e.(sendSeq := 1, sendQueue := [Whole(1, body, true)])
  {
    hide Packed.Decode;
  }

  /** The answer goes out with both acks. */
  lemma AnswerSent(w: World, body: Body)
    requires w.peer.e
             == FRESH_ENDPOINT.(recvSeq := w.peer.e.recvSeq, recvAcks := [1, 3], sendSeq := 1,
                 sendQueue := [Whole(1, body, true)])
    ensures var m := Move(true, Action.BatchSend(false, {}));
            CanMove(w, m) && Answer(body) in Next(w, m).inc && Next(w, m).me == w.me && Next(w, m).crashed == w.crashed
  {
    hide Frames.FrameBytes, Acks.Sent, Acks.Kept;
    var e, p := w.peer.e, Whole(1, body, true);
    NoneOverdue([], {}, QUEUE_CAPACITY);
    assert Batch(e, {}) == [p];
    Acks.Partition([1, 3]);
    PendingAcks();
    assert [p][1..] == [];
    assert Wrap([p], [1, 3]) == [Answer(body)] + Wrap([], Acks.Kept([1, 3]));
    assert InOrder([], [p]) by { assert InOrder([p], []); }
  }

  lemma AnswerReceived(w: World, body: Body)
    requires Sendable(body) && !IsLarge(body) && StartsConnect(body) && !w.crashed && Answer(body) in w.inc
    requires w.me.e.avail == [] && w.me.e.recvSeq == 0
    ensures var m := Move(false, Receive(Answer(body)));
            && CanMove(w, m) && (Next(w, m).crashed <==> body.nbits < 8)
            && (body.nbits >= 8 ==> Next(w, m).me.delivered == w.me.delivered + [Frames.WithoutFirst(body)])
  {
    hide Frames.FrameBytes, Frames.Parse, Frames.NumberBits, Frames.BitLength, Packed.Decode;
    var p := Whole(1, body, true);
    NumbersEnd(p);
    Receiving.ShortHeader(p, [1, 3]);
    Frames.FrameParses(p, [1, 3]);
  }

  /**
   * Acks of 1 and 3 in front of a payload that starts with the packed number 1: its first bit is taken for the missing
   * flag and the rest of its first byte is skipped.  A payload of at least eight bits is handed up without that byte; a
   * shorter one fails an assertion of the receiver.
   */
  lemma MisreadAnswer(other: Body, body: Body)
    requires Sendable(other) && !IsLarge(other) && !StartsConnect(other)
    requires Sendable(body) && !IsLarge(body) && StartsConnect(body)
    ensures var ms := ThreeSent(other) + TwoArrive(other) + AnswerMoves(body);
            && IsRun(FRESH_WORLD, ms) && (Run(FRESH_WORLD, ms).crashed <==> body.nbits < 8)
            && (body.nbits >= 8 ==> Run(FRESH_WORLD, ms).me.delivered == [Frames.WithoutFirst(body)])
  {
    hide Answer, CanMove, Next, IsRun, Run, Packed.Decode, ThreeSent, TwoArrive, Frames.FrameBytes, Sendable;
    var ms, answer := ThreeSent(other) + TwoArrive(other), AnswerMoves(body);
    var w := TwoReceived(other);
    AnswerQueued(w, body);
    var w1 := Next(w, answer[0]);
    AnswerSent(w1, body);
    TwoMoves(FRESH_WORLD, ms, w, answer[0], answer[1]);
    var w2 := Next(w1, answer[1]);
    AnswerReceived(w2, body);
    Extend(FRESH_WORLD, ms + [answer[0], answer[1]], w2, answer[2]);
    assert ms + [answer[0], answer[1]] + [answer[2]] == ms + answer;
  }

  /** The three bits of the number alone are such a payload. */
  lemma ThreeBits()
    ensures var b := Contents([1], 3); b.Valid() && Sendable(b) && !IsLarge(b) && StartsConnect(b)
  {
    hide ByteBits;
    assert BytesBits([1])[..3] == [true, false, false] by { OneByte(); }
    var b := [true, false, false];
    var d := Packed.Encode(1, 1);
    Packed.RoundTrip(1, 1, 0, []);
    assert Packed.Encode(1, 1) == [true] + ToBits(0, 2) by { Packed.EncodeMore(1, 1); Packed.EncodeLast(0, 2); }
    assert ToBits(0, 2) == [false, false] by { assert ToBits(0, 1) == [false] + ToBits(0, 0); }
    assert d + [] == b;
  }

  lemma OneByte()
    ensures BytesBits([1])[..3] == [true, false, false]
  {
    assert [1][1..] == [];
    assert BytesBits([1]) == ByteBits(1) + BytesBits([]);
  }
}
