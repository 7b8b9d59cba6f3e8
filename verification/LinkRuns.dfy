/** Two link objects joined by the network: every call they make in a run is one their protocol allows. */
module LinkRuns {
  import opened Bits
  import opened Options
  import opened Packets
  import opened SiblingBodies
  import opened Endpoints
  import opened Network
  import opened NetworkSafety
  import opened BitStreams
  import opened Links
  import opened Protocols
  import Frames
  import Sending = SendProofs
  import Receiving = ReceiveProofs

  /** What happens to one of the two links: an event to be sent, or a datagram from the network. */
  datatype Call =
    | Event(byPeer: bool, body: Body, isReliable: bool, unresponsive: bool, due: set<u32>)
    | Datagram(byPeer: bool, frame: seq<byte>)

  function ActionsOf(c: Call): seq<Action> {
    match c
    case Event(_, body, isReliable, unresponsive, due) => [Send(body, isReliable), Action.BatchSend(unresponsive, due)]
    case Datagram(_, frame) => [Receive(frame)]
  }

  function MovesOf(c: Call): seq<Move> {
    var acts := ActionsOf(c);
    seq(|acts|, i requires 0 <= i < |acts| => Move(c.byPeer, acts[i]))
  }

  function MovesFor(calls: seq<Call>): seq<Move>
    decreases |calls|
  {
    if calls == [] then [] else MovesOf(calls[0]) + MovesFor(calls[1..])
  }

  function PacketBodies(ps: seq<Packet>): (r: seq<Body>)
    ensures |r| == |ps|
  {
    seq(|ps|, i requires 0 <= i < |ps| => ps[i].body)
  }

  /** The link is in the state of the node: what it posted was handed up, and what it sent is on the wire. */
  ghost predicate Matches(link: CrudLink, n: Node, net: set<seq<byte>>)
    reads link, link.protocol
  {
    && link.Valid() && link.protocol.View() == n.e && PacketBodies(link.posted) == n.delivered
    && net == set f | f in link.outgoing
  }

  lemma Numbered(w: World, body: Body, isReliable: bool, exact: bool)
    requires Inv(w, exact) && Sendable(body) && NoWrap(Step(w, Send(body, isReliable)))
    ensures Numberable(w.me.e, if IsLarge(body) then |Split(body)| else 1)
  {
    hide LogOk, Ascending, PacketOk, ReceiverOk, NetOk, SendPacket;
    SplitParts(body);
    Sending.SentCount(w.me.e, body, isReliable);
  }

  /** An event: the payload is queued, and everything that waits is sent. */
  method ServeEvent(link: CrudLink, body: Body, isReliable: bool, unresponsive: bool, due: set<u32>,
      ghost w: World, ghost exact: bool)
    requires Inv(w, exact) && Matches(link, w.me, w.out)
    requires Sendable(body) && NoWrap(Step(w, Send(body, isReliable)))
    requires Legible(Step(w, Send(body, isReliable)), Action.BatchSend(unresponsive, due), exact)
    modifies link`outgoing, link`disconnects, link.protocol
    ensures var w' := Step(Step(w, Send(body, isReliable)), Action.BatchSend(unresponsive, due));
            Matches(link, w'.me, w'.out) && w'.peer == w.peer && w'.inc == w.inc
  {
    hide Inv, SendPacket, Wrap, Batch, Endpoints.BatchSend, Split, CrudLink.Valid, CrudProtocol.View, InOrder;
    Numbered(w, body, isReliable, exact);
    link.PacketsForEvent(body, isReliable, unresponsive, due);
  }

  /** A datagram in flight: whatever it is, the link may take it. */
  method ServeDatagram(link: CrudLink, frame: seq<byte>, ghost w: World, ghost exact: bool)
    requires Inv(w, exact) && Matches(link, w.me, w.out) && frame in w.inc
    modifies link`posted, link.protocol
    ensures var w' := Step(w, Receive(frame)); Matches(link, w'.me, w'.out) && w'.peer == w.peer && w'.inc == w.inc
  {
    hide Inv, Frames.Parse, Fits, MergesSafely, CrudLink.Valid, CrudProtocol.View, Step, Deliver;
    Receiving.Receivable(w, frame, exact);
    DeliverIsStep(w, frame);
    var bytes := new BitStream.FromBytes(frame);
    link.ReceivedBlock(bytes);
    PostedBodies(old(link.posted), Deliver(w.me.e, frame).1);
  }

  /** Receiving a datagram is what Deliver does to the endpoint and hands up. */
  lemma DeliverIsStep(w: World, frame: seq<byte>)
    requires frame in w.inc && w.me.e.avail == []
    requires var f := Frames.Parse(frame);
             f.Received? && Fits(w.me.e, f.packet) && MergesSafely(w.me.e, f.packet) && IdsAgree(w.me.e, f.packet)
    ensures var w', r := Step(w, Receive(frame)), Deliver(w.me.e, frame);
            && w'.me.e == r.0 && w'.out == w.out && w'.inc == w.inc && w'.peer == w.peer
            && w'.me.delivered == w.me.delivered + (if r.1.Some? then [r.1.value.body] else [])
  {
    hide Frames.Parse, Fits, MergesSafely, IdsAgree, Deliver;
  }

  lemma PostedBodies(posted: seq<Packet>, p: Option<Packet>)
    ensures PacketBodies(posted + match p case Some(q) => [q] case None => [])
         == PacketBodies(posted) + (if p.Some? then [p.value.body] else [])
  {
  }

  /** What a call asks of the state before it, and the state after it. */
  ghost predicate Serves(w: World, c: Call, w': World, exact: bool) {
    var v := if c.byPeer then Flip(w) else w;
    var v' := if c.byPeer then Flip(w') else w';
    match c
    case Event(_, body, isReliable, unresponsive, due) =>
      && Sendable(body) && NoWrap(Step(v, Send(body, isReliable)))
      && Legible(Step(v, Send(body, isReliable)), Action.BatchSend(unresponsive, due), exact)
      && v' == Step(Step(v, Send(body, isReliable)), Action.BatchSend(unresponsive, due))
    case Datagram(_, frame) => frame in v.inc && v' == Step(v, Receive(frame))
  }

  /** The next call of a run, and the run from there on. */
  lemma OneCall(w: World, c: Call, rest: seq<Call>, exact: bool) returns (w': World)
    requires IsRun(w, MovesFor([c] + rest)) && LegibleRun(w, MovesFor([c] + rest), exact)
    requires Inv(w, exact) && NoWrap(Run(w, MovesFor([c] + rest)))
    ensures IsRun(w', MovesFor(rest)) && LegibleRun(w', MovesFor(rest), exact) && Inv(w', exact)
    ensures Run(w', MovesFor(rest)) == Run(w, MovesFor([c] + rest))
    ensures Serves(w, c, w', exact)
  {
    hide Inv, Step, Sendable, NoWrap;
    var ms, ms' := MovesFor([c] + rest), MovesFor(rest);
    assert ([c] + rest)[1..] == rest;
    assert ms == MovesOf(c) + ms';
    var w1 := Next(w, ms[0]);
    NoWrapFromStart(w1, ms[1..]);
    NextKeepsInv(w, ms[0], exact);
    if c.Event? {
      var w2 := Next(w1, ms[1]);
      assert ms[1..][0] == ms[1] && ms[1..][1..] == ms[2..] == ms';
      NoWrapFromStart(w2, ms');
      NextKeepsInv(w1, ms[1], exact);
      FlipKeepsWrap(w1);
      w' := w2;
    } else {
      assert ms[1..] == ms';
      w' := w1;
    }
  }

  lemma FlipKeepsWrap(w: World)
    ensures NoWrap(Flip(w)) <==> NoWrap(w)
    ensures Flip(Flip(w)) == w
  {
  }

  method Serve(a: CrudLink, b: CrudLink, c: Call, ghost w: World, ghost w': World, ghost exact: bool)
    requires a != b && a.protocol != b.protocol && Inv(w, exact) && Serves(w, c, w', exact)
    requires Matches(a, w.me, w.out) && Matches(b, w.peer, w.inc)
    modifies a`outgoing, a`disconnects, a`posted, a.protocol, b`outgoing, b`disconnects, b`posted, b.protocol
    ensures Matches(a, w'.me, w'.out) && Matches(b, w'.peer, w'.inc)
  {
    hide Inv, NoWrap, Step, Legible, Sendable, CrudLink.Valid, CrudProtocol.View;
    FlipKeepsInv(w, exact);
    match c {
      case Event(byPeer, body, isReliable, unresponsive, due) =>
        if byPeer { ServeEvent(b, body, isReliable, unresponsive, due, Flip(w), exact); }
        else { ServeEvent(a, body, isReliable, unresponsive, due, w, exact); }
      case Datagram(byPeer, frame) =>
        if byPeer { ServeDatagram(b, frame, Flip(w), exact); } else { ServeDatagram(a, frame, w, exact); }
    }
  }

  /**
   * Two new links over any network that alters nothing, any calls in any order: each of their calls finds the protocol
   * as it asks for it, and at the end both are in the state that the run of the model predicts.
   */
  method Drive(calls: seq<Call>, ghost exact: bool) returns (a: CrudLink, b: CrudLink)
    requires IsRun(FRESH_WORLD, MovesFor(calls)) && LegibleRun(FRESH_WORLD, MovesFor(calls), exact)
    requires NoWrap(Run(FRESH_WORLD, MovesFor(calls)))
    ensures var w := Run(FRESH_WORLD, MovesFor(calls)); Matches(a, w.me, w.out) && Matches(b, w.peer, w.inc)
  {
    hide Inv, IsRun, Run, LegibleRun, NoWrap, Serves, CrudLink.Valid, CrudProtocol.View;
    a := new CrudLink();
    b := new CrudLink();
    ghost var w, end := FRESH_WORLD, Run(FRESH_WORLD, MovesFor(calls));
    FreshWorldOk(exact);
    assert calls[0..] == calls;
    for i := 0 to |calls|
      invariant fresh(a) && fresh(b) && fresh(a.protocol) && fresh(b.protocol) && a != b && a.protocol != b.protocol
      invariant Matches(a, w.me, w.out) && Matches(b, w.peer, w.inc) && Inv(w, exact)
      invariant IsRun(w, MovesFor(calls[i..])) && LegibleRun(w, MovesFor(calls[i..]), exact)
      invariant Run(w, MovesFor(calls[i..])) == end
    {
      var c := calls[i];
      assert calls[i..] == [c] + calls[i + 1..];
      ghost var w' := OneCall(w, c, calls[i + 1..], exact);
      Serve(a, b, c, w, w', exact);
      w := w';
    }
    assert MovesFor([]) == [] && calls[|calls|..] == [];
    NothingLeft(w);
  }

  lemma NothingLeft(w: World)
    ensures IsRun(w, []) && Run(w, []) == w
  {
  }
}
