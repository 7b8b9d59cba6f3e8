/** The link that drives the protocol object: which calls it makes, in which order. */
module Links {
  import opened Bits
  import opened Options
  import opened Packets
  import opened SiblingBodies
  import opened Endpoints
  import opened HeldPackets
  import opened BitStreams
  import opened Protocols
  import Frames
  import Network

  class CrudLink {
    const protocol: CrudProtocol
    /**
     * Packets posted to the link itself, datagrams posted to the network layer, and disconnects posted to the target.
     */
    var posted: seq<Packet>
    var outgoing: seq<seq<byte>>
    var disconnects: nat

    /** Between calls nothing is available and nothing waits for retransmission. */
    ghost predicate Valid()
      reads this, protocol
    {
      protocol.Valid() && protocol.avail == [] && protocol.retransmit == []
    }

    constructor ()
      ensures Valid() && fresh(protocol) && protocol.View() == FRESH_ENDPOINT && posted == [] && outgoing == []
              && disconnects == 0
    {
      protocol := new CrudProtocol();
      posted, outgoing, disconnects := [], [], 0;
    }

    /** Gives one datagram to the protocol and posts every packet it then hands up: at most one. */
    method ReceivedBlock(bytes: BitStream)
      requires Valid() && bytes.Valid() && !bytes.byteAligned && bytes.writeBit == 0 && bytes.ReadPos() == 0
      requires var f := Frames.Parse(bytes.Stored());
               !f.Malformed?
                   && (f.Received? ==> Fits(protocol.View(), f.packet) && MergesSafely(protocol.View(), f.packet))
      modifies this`posted, protocol, bytes
      ensures Valid() && protocol.View() == Deliver(old(protocol.View()), old(bytes.Stored())).0
      ensures posted
              == old(posted)
                  + match Deliver(old(protocol.View()), old(bytes.Stored())).1 case Some(p) => [p] case None => []
    {
      hide CrudProtocol.Valid, Frames.Parse, Endpoints.PushRecvPacket, Fits, MergesSafely;
      ghost var v, frame := protocol.View(), bytes.Stored();
      protocol.ReceivedBlock(bytes);
      ghost var pushed := protocol.View();
      StillNothingToRepeat(v, frame);
      assert |Values(protocol.retransmit)| == 0;
      var pkt := protocol.RecvPacket();
      while pkt.Some?
        invariant protocol.Valid() && protocol.avail == [] && protocol.retransmit == []
        invariant protocol.View() == Endpoints.RecvPacket(pushed).0
        invariant posted + (if pkt.Some? then [pkt.value.packet] else []) ==
          old(posted) + match Endpoints.RecvPacket(pushed).1 case Some(p) => [p] case None => []
        decreases pkt.Some?
      {
        posted := posted + [pkt.value.packet];
        pkt := protocol.RecvPacket();
      }
    }

    /** Sends the serialised event, then everything that waits; an unresponsive link is disconnected instead. */
    method PacketsForEvent(body: Body, isReliable: bool, unresponsive: bool, due: set<u32>)
      requires Valid() && |body.bytes| <= LARGEST_BODY
      requires protocol.NumbersLeft(if IsLarge(body) then |Split(body)| else 1)
      modifies this`outgoing, this`disconnects, protocol
      ensures Valid()
      ensures var e := Endpoints.SendPacket(old(protocol.View()), body, isReliable);
              && protocol.View() == (if unresponsive then e else Endpoints.BatchSend(e, due))
              && outgoing == old(outgoing) + (if unresponsive then [] else Wrap(Batch(e, due), e.recvAcks))
              && disconnects == old(disconnects) + (if unresponsive then 1 else 0)
    {
      hide CrudProtocol.Valid, Split, Endpoints.SendPacket, Wrap, Batch;
      var res := protocol.Allocate(Part(body, 0, 0, 0, isReliable));
      var ok := protocol.SendPacket(res);
      var sent, packetsToSend := protocol.BatchSend(unresponsive, due);
      if !sent {
        disconnects := disconnects + 1;
        return;
      }
      outgoing := outgoing + packetsToSend;
    }
  }

  lemma StillNothingToRepeat(e: Endpoint, frame: seq<byte>)
    requires e.retransmit == []
    requires var f := Frames.Parse(frame); f.Received? ==> Fits(e, f.packet)
    ensures var f := Frames.Parse(frame);
            f.Received? ==> Endpoints.PushRecvPacket(e, f.packet, AckSet(f.acks)).retransmit == []
  {
    hide Frames.Parse, Fits;
  }
}
