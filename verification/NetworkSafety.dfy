/** What holds in every reachable state of two endpoints over an unreliable network. */
module NetworkSafety {
  import opened Bits
  import opened Packets
  import opened Endpoints
  import opened Network
  import opened SendProofs
  import opened BatchProofs
  import opened ReceiveProofs

  lemma SendKeepsInv(w: World, body: Body, reliable: bool, exact: bool)
    requires Inv(w, exact) && Sendable(body)
    requires NoWrap(w.(me := SendOn(w.me, body, reliable)))
    ensures Inv(w.(me := SendOn(w.me, body, reliable)), exact)
  {
    hide SenderOk, ReceiverOk, Sendable, SendOn, NetOk, LogOk;
    var n' := SendOn(w.me, body, reliable);
    GroupsGrow(w.me, body, reliable);
    SendKeepsSender(w.me, body, reliable);
    SendKeepsLog(w.me, body, reliable);
    LogOfSender(w.me);
    NetGrows(w.out, w.me, n', exact);
    ReceiverGrows(w.me, n', w.peer, exact);
    SendKeepsReceiver(w.me, body, reliable, w.peer, exact);
    SendLosesNothing(w.me, body, reliable, w.peer);
  }

  lemma LogOfSender(n: Node)
    requires SenderOk(n)
    ensures LogOk(n.log, n.all, n.groups)
  {
  }

  lemma SendKeepsReceiver(n: Node, body: Body, reliable: bool, s: Node, exact: bool)
    requires SenderOk(n) && Sendable(body) && ReceiverOk(s, n, exact)
    requires |SendOn(n, body, reliable).all| < SEQUENCE_SPACE && SendOn(n, body, reliable).groups < SEQUENCE_SPACE
    ensures ReceiverOk(s, SendOn(n, body, reliable), exact)
  {
    hide SendOn, SenderOk, Sendable, Pieces;
    SendShape(n, body, reliable);
    GroupsGrow(n, body, reliable);
  }

  lemma SendLosesNothing(n: Node, body: Body, reliable: bool, r: Node)
    requires SenderOk(n) && Sendable(body) && NothingLost(n, r)
    requires |SendOn(n, body, reliable).all| < SEQUENCE_SPACE && SendOn(n, body, reliable).groups < SEQUENCE_SPACE
    ensures NothingLost(SendOn(n, body, reliable), r)
  {
    hide SendOn, SenderOk, Sendable, Pieces;
    SendShape(n, body, reliable);
  }

  lemma StepKeepsInv(w: World, a: Action, exact: bool)
    requires Inv(w, exact) && Enabled(w, a) && Legible(w, a, exact) && NoWrap(Step(w, a))
    ensures Inv(Step(w, a), exact)
  {
    hide Inv, SendOn, BatchOn, ReceiveOn, Sendable, LegibleFrames;
    match a
    case Send(body, reliable) => SendKeepsInv(w, body, reliable, exact);
    case BatchSend(unresponsive, due) => if !unresponsive { BatchKeepsInv(w, due, exact); }
    case Receive(frame) => ReceiveKeepsInv(w, frame, exact);
  }

  lemma FlipKeepsInv(w: World, exact: bool)
    requires Inv(w, exact)
    ensures Inv(Flip(w), exact)
  {
    hide Direction;
  }

  lemma NextKeepsInv(w: World, m: Move, exact: bool)
    requires Inv(w, exact) && CanMove(w, m) && LegibleMove(w, m, exact) && NoWrap(Next(w, m))
    ensures Inv(Next(w, m), exact)
  {
    hide Inv, Step, Enabled, Legible;
    if m.byPeer {
      FlipKeepsInv(w, exact);
      StepKeepsInv(Flip(w), m.action, exact);
      FlipKeepsInv(Step(Flip(w), m.action), exact);
    } else {
      StepKeepsInv(w, m.action, exact);
    }
  }

  /** Numbers are never given back. */
  lemma NoWrapBefore(w: World, m: Move)
    requires CanMove(w, m) && NoWrap(Next(w, m))
    ensures NoWrap(w)
  {
    hide SendPacket, Endpoints.BatchSend, Deliver, Wrap, InOrder, Sendable;
  }

  lemma {:induction false} NoWrapFromStart(w: World, moves: seq<Move>)
    requires IsRun(w, moves) && NoWrap(Run(w, moves))
    ensures NoWrap(w)
    decreases |moves|
  {
    hide NoWrap, Next, CanMove;
    if moves != [] {
      NoWrapFromStart(Next(w, moves[0]), moves[1..]);
      NoWrapBefore(w, moves[0]);
    }
  }

  lemma {:induction false} RunKeepsInv(w: World, moves: seq<Move>, exact: bool)
    requires Inv(w, exact) && IsRun(w, moves) && LegibleRun(w, moves, exact) && NoWrap(Run(w, moves))
    ensures Inv(Run(w, moves), exact)
    decreases |moves|
  {
    hide Inv, NoWrap, Next, CanMove, LegibleMove;
    if moves != [] {
      NoWrapFromStart(Next(w, moves[0]), moves[1..]);
      NextKeepsInv(w, moves[0], exact);
      RunKeepsInv(Next(w, moves[0]), moves[1..], exact);
    }
  }

  lemma FreshWorldOk(exact: bool)
    ensures Inv(FRESH_WORLD, exact)
  {
    hide SenderOk, ReceiverOk;
    FreshSender();
    FreshReceiver(exact);
  }

  lemma FreshSender()
    ensures SenderOk(FRESH_NODE)
  {
    hide PacketOk, MessageOk;
    assert FRESH_ENDPOINT.reliable + FRESH_ENDPOINT.sendQueue == [];
  }

  lemma FreshReceiver(exact: bool)
    ensures ReceiverOk(FRESH_NODE, FRESH_NODE, exact)
  {
    hide GroupOf;
  }

  // What holds in every run in which the receivers can read the datagrams; `exact` says whether exactly as sent.

  /** The payloads handed up so far, against those queued by the other side. */
  ghost predicate DeliveredPrefix(s: Node, r: Node, exact: bool) {
    |r.delivered| <= |s.log| && forall k :: 0 <= k < |r.delivered| ==> ComesAs(s.log[k], r.delivered[k], exact)
  }

  /**
   * Payloads arrive in order, at most once, without gaps, in both directions; unless all datagrams are read exactly, a
   * payload that starts with the packed number 1 may lack its first byte.
   */
  lemma InOrderDelivery(moves: seq<Move>, exact: bool)
    requires IsRun(FRESH_WORLD, moves) && LegibleRun(FRESH_WORLD, moves, exact) && NoWrap(Run(FRESH_WORLD, moves))
    ensures var w := Run(FRESH_WORLD, moves);
            DeliveredPrefix(w.me, w.peer, exact) && DeliveredPrefix(w.peer, w.me, exact)
  {
    hide Run, IsRun, LegibleRun, SenderOk, ComesAs;
    FreshWorldOk(exact);
    RunKeepsInv(FRESH_WORLD, moves, exact);
  }

  /** Read exactly, the payloads handed up are bit for bit those queued. */
  lemma ExactDelivery(moves: seq<Move>, k: nat)
    requires IsRun(FRESH_WORLD, moves) && LegibleRun(FRESH_WORLD, moves, true) && NoWrap(Run(FRESH_WORLD, moves))
    ensures var w := Run(FRESH_WORLD, moves);
            && |w.peer.delivered| <= |w.me.log| && |w.me.delivered| <= |w.peer.log|
            && (k < |w.peer.delivered| ==> w.peer.delivered[k] == w.me.log[k].body)
            && (k < |w.me.delivered| ==> w.me.delivered[k] == w.peer.log[k].body)
  {
    hide Run, IsRun, LegibleRun;
    InOrderDelivery(moves, true);
  }

  /** A payload of which some packets were not queued, and every later one, is never handed up. */
  lemma CutPayloadBlocks(moves: seq<Move>, k: nat, exact: bool)
    requires IsRun(FRESH_WORLD, moves) && LegibleRun(FRESH_WORLD, moves, exact) && NoWrap(Run(FRESH_WORLD, moves))
    ensures var w := Run(FRESH_WORLD, moves);
            && (k < |w.me.log| && !Complete(w.me.log[k]) ==> |w.peer.delivered| <= k)
            && (k < |w.peer.log| && !Complete(w.peer.log[k]) ==> |w.me.delivered| <= k)
  {
    hide Run, IsRun, LegibleRun, SenderOk, ComesAs;
    FreshWorldOk(exact);
    RunKeepsInv(FRESH_WORLD, moves, exact);
  }

  /** No assertion fails, no slot is out of bounds, and nothing stays available between calls. */
  lemma NeverCrashes(moves: seq<Move>, exact: bool)
    requires IsRun(FRESH_WORLD, moves) && LegibleRun(FRESH_WORLD, moves, exact) && NoWrap(Run(FRESH_WORLD, moves))
    ensures var w := Run(FRESH_WORLD, moves); !w.crashed && w.me.e.avail == [] && w.peer.e.avail == []
  {
    hide Run, IsRun, LegibleRun, LogOk, PacketOk;
    FreshWorldOk(exact);
    RunKeepsInv(FRESH_WORLD, moves, exact);
  }

  /** A reliable packet leaves its sender's hands only after the other side has seen its number. */
  lemma NoAckWithoutReceipt(moves: seq<Move>, exact: bool)
    requires IsRun(FRESH_WORLD, moves) && LegibleRun(FRESH_WORLD, moves, exact) && NoWrap(Run(FRESH_WORLD, moves))
    ensures var w := Run(FRESH_WORLD, moves); NothingLost(w.me, w.peer) && NothingLost(w.peer, w.me)
  {
    hide Run, IsRun, LegibleRun, SenderOk, NothingLost;
    FreshWorldOk(exact);
    RunKeepsInv(FRESH_WORLD, moves, exact);
  }

  /** The packets held for acknowledgement and then those queued are strictly ascending, and all were numbered. */
  ghost predicate HeldInOrder(e: Endpoint) {
    && Ascending(e.reliable + e.sendQueue)
    && forall p :: p in e.reliable + e.sendQueue ==> 1 <= p.seqNo <= e.sendSeq
  }

  lemma HeldPacketsAscend(moves: seq<Move>, exact: bool)
    requires IsRun(FRESH_WORLD, moves) && LegibleRun(FRESH_WORLD, moves, exact) && NoWrap(Run(FRESH_WORLD, moves))
    ensures HeldInOrder(Run(FRESH_WORLD, moves).me.e) && HeldInOrder(Run(FRESH_WORLD, moves).peer.e)
  {
    hide Run, IsRun, LegibleRun, LogOk, PacketOk;
    FreshWorldOk(exact);
    RunKeepsInv(FRESH_WORLD, moves, exact);
  }
}
