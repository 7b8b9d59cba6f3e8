/** The protocol object: its fields, what it owns, and its calls, each equal to the corresponding endpoint function. */
module Protocols {
  import opened Bits
  import opened Options
  import opened Packets
  import opened SiblingBodies
  import opened Endpoints
  import opened HeldPackets
  import opened BitStreams
  import FrameStreams
  import Packed = PackedCode
  import Acks
  import Checksums
  import Damages
  import Frames
  import Network
  import Retransmits
  import AckProofs = ReceiveProofs
  import Sending = SendProofs

  /** The allocations of the packets in s whose numbers are in ids. */
  ghost function Freed(s: seq<Held>, ids: set<u32>): set<nat> {
    set h | h in s && h.packet.seqNo in ids :: h.handle
  }

  /** The reliable packets with the acknowledged ones nulled out. */
  ghost predicate Nulled(packs: Slots, s: seq<Held>, ids: set<u32>) {
    |packs| == |s| && forall i :: 0 <= i < |s| ==> packs[i] == if s[i].packet.seqNo in ids then None else Some(s[i])
  }

  /** Packets whose datagram fits a stream. */
  predicate Writable(p: Packet) {
    p.Valid() && |p.body.bytes| <= LARGEST_BODY
  }

  function Compact(packs: Slots): seq<Held> {
    if packs == [] then []
    else if packs[0].Some? then [packs[0].value] + Compact(packs[1..])
    else Compact(packs[1..])
  }

  lemma {:induction false} CompactNulled(packs: Slots, s: seq<Held>, ids: set<u32>)
    requires Nulled(packs, s, ids)
    ensures Compact(packs) == UnackedHeld(s, ids)
  {
    if packs != [] {
      assert forall i :: 0 <= i < |packs[1..]| ==> packs[1..][i] == packs[i + 1] && s[1..][i] == s[i + 1];
      CompactNulled(packs[1..], s[1..], ids);
    }
  }

  class CrudProtocol {
    var sendSeq: u32
    var recvSeq: u32
    var siblingId: u32
    var avail: seq<Held>
    var reliable: seq<Held>
    var sendQueue: seq<Held>
    var retransmit: seq<Held>
    var recvAcks: seq<u32>
    var unackedCount: nat
    var siblings: map<u32, Slots>
    var nextHandle: nat
    /** Every packet allocated and not yet freed, and who holds it. */
    ghost var owner: map<nat, Owner>

    ghost function View(): Endpoint
      reads this
    {
      Endpoint(sendSeq, recvSeq, siblingId, Values(avail), Values(reliable), Values(sendQueue),
               Values(retransmit), recvAcks, SiblingValues(siblings))
    }

    /** Every held packet is live and held once; retransmitted ones are among the unacknowledged; numbers ascend. */
    ghost predicate Valid()
      reads this
    {
      && Owned(avail, Available, owner) && Owned(reliable, Unacknowledged, owner) && Owned(sendQueue, Queued, owner)
      && SlotsOwned(siblings, owner)
      && (forall h :: h in owner ==> h < nextHandle)
      && (forall h :: h in retransmit ==> h in reliable) && Distinct(retransmit)
      && Network.Ascending(Values(reliable + sendQueue))
      && (forall h :: h in reliable + sendQueue ==> h.packet.seqNo <= sendSeq && Writable(h.packet))
    }

    constructor ()
      ensures Valid() && View() == FRESH_ENDPOINT && owner == map[]
    {
      sendSeq, recvSeq, siblingId := 0, 0, 0;
      avail, reliable, sendQueue, retransmit := [], [], [], [];
      recvAcks, unackedCount := [], 0;
      siblings := map[];
      nextHandle := 0;
      owner := map[];
      new;
      assert reliable + sendQueue == [];
      assert View() == FRESH_ENDPOINT;
    }

    // ---- allocation ----

    method Allocate(p: Packet) returns (h: Held)
      requires Valid()
      modifies this`owner, this`nextHandle
      ensures Valid() && h.packet == p && h.handle !in old(owner) && owner == old(owner)[h.handle := InHand]
    {
      h := Held(nextHandle, p);
      owner := owner[nextHandle := InHand];
      nextHandle := nextHandle + 1;
    }

    /** Only a live packet may be freed. */
    method Delete(h: Held)
      requires h.handle in owner
      modifies this`owner
      ensures owner == old(owner) - {h.handle}
    {
      owner := owner - {h.handle};
    }

    // ---- acknowledgements ----

    method FindPack(packs: Slots, id: u32) returns (i: nat)
      ensures i <= |packs|
      ensures i < |packs| ==> packs[i].Some? && packs[i].value.packet.seqNo == id
      ensures forall j :: 0 <= j < i ==> packs[j].None? || packs[j].value.packet.seqNo != id
    {
      i := 0;
      while i < |packs| && (packs[i].None? || packs[i].value.packet.seqNo != id)
        invariant i <= |packs|
        invariant forall j :: 0 <= j < i ==> packs[j].None? || packs[j].value.packet.seqNo != id
      {
        i := i + 1;
      }
    }

    /** Part way through the acks of one datagram: those in done have been processed. */
    ghost predicate Acking(packs: Slots, done: set<u32>, owner0: map<nat, Owner>, retransmit0: seq<Held>)
      reads this
    {
      && Owned(reliable, Unacknowledged, owner0) && Network.Ascending(Values(reliable))
      && (forall h :: h in retransmit0 ==> h in reliable) && Distinct(retransmit0)
      && Nulled(packs, reliable, done)
      && owner == owner0 - Freed(reliable, done)
      && retransmit == UnackedHeld(retransmit0, done)
    }

    /** Frees the packet with this number, if it is still there, and takes it out of the retransmit queue first. */
    method PacketAck(packs: Slots, id: u32, ghost done: set<u32>, ghost owner0: map<nat, Owner>,
        ghost retransmit0: seq<Held>)
      returns (packs': Slots)
      requires Acking(packs, done, owner0, retransmit0)
      modifies this`retransmit, this`owner
      ensures Acking(packs', done + {id}, owner0, retransmit0)
    {
      UnackedHeldMore(retransmit0, done, id);
      var i := FindPack(packs, id);
      if i == |packs| {
        NotHeld(reliable, packs, done, id);
        UnackedHeldNone(retransmit, {id});
        return packs;
      }
      var pack := packs[i].value;
      UniqueNumber(reliable, i);
      var k := FindHeld(retransmit, pack);
      if k < |retransmit| {
        UnackedHeldDistinct(retransmit0, done);
        EraseOne(retransmit, k);
        retransmit := retransmit[..k] + retransmit[k + 1..];
      } else {
        UnackedHeldNone(retransmit, {id});
      }
      FreedOne(reliable, i, done, id);
      Delete(pack);
      packs' := packs[i := None];
    }

    method PacketAcks(acks: set<u32>) returns (packs: Slots)
      requires Owned(reliable, Unacknowledged, owner) && Network.Ascending(Values(reliable))
      requires (forall h :: h in retransmit ==> h in reliable) && Distinct(retransmit)
      modifies this`retransmit, this`owner
      ensures Nulled(packs, reliable, acks) && owner == old(owner) - Freed(reliable, acks)
      ensures retransmit == UnackedHeld(old(retransmit), acks)
    {
      ghost var done: set<u32> := {};
      UnackedHeldNone(retransmit, {});
      packs := seq(|reliable|, i requires 0 <= i < |reliable| reads this => Some(reliable[i]));
      var left := acks;
      assert owner == owner - Freed(reliable, {});
      while left != {}
        invariant done + left == acks
        invariant Acking(packs, done, old(owner), old(retransmit))
        decreases |left|
      {
        hide Acking;
        var id :| id in left;
        packs := PacketAck(packs, id, done, old(owner), old(retransmit));
        left := left - {id};
        done := done + {id};
      }
      assert done == acks;
    }

    /** Processes every ack, then removes the nulled entries. */
    method ProcessAcks(acks: set<u32>)
      requires Valid()
      modifies this`reliable, this`retransmit, this`owner
      ensures Valid()
      ensures reliable == UnackedHeld(old(reliable), acks) && retransmit == UnackedHeld(old(retransmit), acks)
      ensures owner == old(owner) - Freed(old(reliable), acks)
    {
      hide Owned, SlotsOwned, Distinct, Network.Ascending, Values, Compact, UnackedHeld, Nulled, Freed;
      AscendingFront(reliable, sendQueue);
      KeptOwnership(reliable, sendQueue, retransmit, avail, siblings, acks, owner);
      KeptAscending(reliable, sendQueue, acks);
      FreedOnly(owner, Freed(reliable, acks), nextHandle);
      var packs := PacketAcks(acks);
      CompactNulled(packs, reliable, acks);
      reliable := Compact(packs);
    }

    // ---- siblings ----

    /** The slots of the group of p, as the map's subscript operator yields them. */
    function SlotsFor(p: Packet): Slots
      reads this
    {
      if p.sibId in siblings && siblings[p.sibId] != [] then siblings[p.sibId] else seq(p.numSibs, _ => None)
    }

    lemma SlotsForValues(p: Packet)
      ensures SlotValues(SlotsFor(p)) == StorageFor(View(), p) && |SlotsFor(p)| == |StorageFor(View(), p)|
      ensures forall j :: 0 <= j < |SlotsFor(p)| ==> SlotsFor(p)[j].Some? == StorageFor(View(), p)[j].Some?
    {
    }

    /** Puts the packet in its slot, unless the slot is taken. */
    method InsertSibling(h: Held) returns (ok: bool)
      requires Valid() && h.handle in owner && owner[h.handle] == InHand
      requires h.packet.HasSiblings() && h.packet.sibPos < |SlotsFor(h.packet)|
      modifies this`siblings, this`owner
      ensures Valid()
      ensures ok == old(SlotsFor(h.packet))[h.packet.sibPos].None?
      ensures ok ==> siblings == old(siblings)[h.packet.sibId := old(SlotsFor(h.packet))[h.packet.sibPos := Some(h)]]
      ensures !ok ==> siblings == old(siblings)[h.packet.sibId := old(SlotsFor(h.packet))]
      ensures owner == if ok then old(owner)[h.handle := InSlot(h.packet.sibId, h.packet.sibPos)] else old(owner)
    {
      hide Network.Ascending, Distinct, Owned, SlotsOwned, Values;
      var id, pos: nat := h.packet.sibId, h.packet.sibPos;
      var storage := SlotsFor(h.packet);
      StorageOwned(siblings, owner, h.packet);
      siblings := siblings[id := storage];
      if storage[pos].Some? {
        assert storage[pos].value.packet.sibId == id;
        return false;
      }
      HandOver(avail, reliable, sendQueue, siblings, owner, h.handle, InSlot(id, pos));
      SlotFilled(siblings, owner[h.handle := InSlot(id, pos)], h, pos);
      siblings := siblings[id := storage[pos := Some(h)]];
      owner := owner[h.handle := InSlot(id, pos)];
      return true;
    }

    method AllSiblingsAvailable(id: u32) returns (all: bool)
      requires id in siblings
      ensures all == AllAvailable(SlotValues(siblings[id]))
    {
      var storage := siblings[id];
      AvailableSlots(storage);
      var count := 0;
      for i := 0 to |storage|
        invariant count <= i
        invariant count == i <==> forall j :: 0 <= j < i ==> storage[j].Some?
      {
        if storage[i].Some? { count := count + 1; }
      }
      all := count == |storage|;
    }

    /** The streams of a complete group, one after the other; every part carries the id of the group. */
    method MergeStreams(storage: Slots, id: u32) returns (body: Body)
      requires forall j :: 0 <= j < |storage| && storage[j].Some? ==> storage[j].value.packet.sibId == id
      requires AllAvailable(SlotValues(storage)) && MergeFits(0, Bodies(SlotValues(storage)))
      ensures body == Merge(Bodies(SlotValues(storage)))
    {
      hide MergeFits;
      AvailableSlots(storage);
      ghost var bodies := Bodies(SlotValues(storage));
      var bs := new BitStream(32);
      for i := 0 to |storage|
        invariant fresh(bs) && fresh(bs.buf) && bs.Valid() && bs.maxSize == NO_LIMIT
        invariant bs.Stored() == MergeFrom(Contents([], 0), bodies[..i]).bytes
        invariant bs.WritePos() == MergeFrom(Contents([], 0), bodies[..i]).nbits
      {
        MergeFitsAt(Contents([], 0), bodies, i);
        MergeSnoc(Contents([], 0), bodies, i);
        assert storage[i].value.packet.sibId == id;
        var part := storage[i].value.packet.body;
        bs.StoreBitArray(part.bytes, part.nbits);
      }
      assert bodies[..|storage|] == bodies;
      body := Contents(bs.buf[..bs.StoredLen()], bs.WritePos());
    }

    method FreeParts(storage: Slots)
      requires SlotHandles(storage) <= owner.Keys && forall j :: 0 <= j < |storage| ==> storage[j].Some?
      requires forall i, j :: 0 <= i < j < |storage| ==> storage[i].value.handle != storage[j].value.handle
      modifies this`owner
      ensures owner == old(owner) - SlotHandles(storage)
    {
      assert storage[..0] == [];
      for i := 0 to |storage|
        invariant owner == old(owner) - SlotHandles(storage[..i])
      {
        assert storage[i].value.handle in SlotHandles(storage);
        Delete(storage[i].value);
      }
      assert storage[..|storage|] == storage;
    }

    /** Puts a complete group together as one packet and frees the parts. */
    method MergeSiblings(id: u32) returns (res: Held)
      requires Valid() && id in siblings && siblings[id] != [] && AllAvailable(SlotValues(siblings[id]))
      requires MergeFits(0, Bodies(SlotValues(siblings[id])))
      modifies this`siblings, this`owner, this`nextHandle
      ensures Valid() && siblings == old(siblings) - {id}
      ensures res.packet == MergedPacket(old(SlotValues(siblings[id])))
      ensures owner == old(owner)[res.handle := InHand] - SlotHandles(old(siblings[id]))
      ensures res.handle in owner && owner[res.handle] == InHand && avail == old(avail)
    {
      hide Network.Ascending, Distinct, Merge, MergeFits;
      var storage := siblings[id];
      AvailableSlots(storage);
      PartsOwned(siblings, owner, id);
      res := Allocate(storage[0].value.packet);
      var body := MergeStreams(storage, id);
      res := res.(packet := res.packet.(body := body));
      GroupFreed(avail, reliable, sendQueue, siblings, owner, id);
      FreeParts(storage);
      siblings := siblings - {id};
    }

    // ---- receiving ----

    /** Takes in a parsed packet: its acks, its number, and the packet itself. */
    method PushRecvPacket(h: Held, acks: set<u32>)
      requires Valid() && avail == [] && h.handle in owner && owner[h.handle] == InHand
      requires Fits(View(), h.packet) && MergesSafely(View(), h.packet)
      modifies this
      ensures Valid() && View() == Endpoints.PushRecvPacket(old(View()), h.packet, acks) && |avail| <= 1
    {
      hide Network.Ascending, Distinct, SlotsOwned, Owned, Unacked, Fits, MergesSafely, TakePacket, SiblingValues,
           UnackedHeld;
      TakeInAcks(h, acks);
      SameSiblings(old(View()), View(), h.packet);
      if !h.packet.HasSiblings() {
        MakeAvailable(h);
        ghost var acked := old(View()).(reliable := Values(reliable), retransmit := Values(retransmit),
            recvAcks := recvAcks);
        assert TakePacket(acked, h.packet) == View() by { WholeTaken(acked, h.packet); }
        return;
      }
      TakeSibling(h);
    }

    /** The acks that came with the packet are processed, and its own number becomes pending. */
    method TakeInAcks(h: Held, acks: set<u32>)
      requires Valid() && avail == [] && h.handle in owner && owner[h.handle] == InHand
      modifies this`reliable, this`retransmit, this`owner, this`recvAcks, this`unackedCount
      ensures Valid() && h.handle in owner && owner[h.handle] == InHand
      ensures View() == old(View()).(reliable := Unacked(old(View()).reliable, acks),
                                     retransmit := Unacked(old(View()).retransmit, acks),
                                     recvAcks := old(recvAcks) + [h.packet.seqNo])
    {
      hide Network.Ascending, Distinct, SlotsOwned, Owned, Unacked, SiblingValues, UnackedHeld, Values;
      UnackedHeldValues(reliable, acks);
      UnackedHeldValues(retransmit, acks);
      StillInHand(reliable, acks, owner, h.handle);
      ProcessAcks(acks);
      recvAcks := recvAcks + [h.packet.seqNo];
      unackedCount := |recvAcks|;
    }

    method MakeAvailable(h: Held)
      requires Valid() && avail == [] && h.handle in owner && owner[h.handle] == InHand
      modifies this`avail, this`owner
      ensures Valid() && avail == [h] && Values(avail) == [h.packet]
    {
      hide Network.Ascending, Distinct;
      ValuesConcat([], [h]);
      HandOver(avail, reliable, sendQueue, siblings, owner, h.handle, Available);
      avail := avail + [h];
      owner := owner[h.handle := Available];
    }

    method TakeSibling(h: Held)
      requires Valid() && avail == [] && h.handle in owner && owner[h.handle] == InHand
      requires h.packet.HasSiblings() && Fits(View(), h.packet) && MergesSafely(View(), h.packet)
      modifies this`siblings, this`avail, this`owner, this`nextHandle
      ensures Valid() && View() == TakePacket(old(View()), h.packet) && |avail| <= 1
    {
      hide Network.Ascending, Distinct, MergedPacket, MergeFits, SlotsOwned, Owned, SiblingValues, SlotValues;
      var id, pos: nat := h.packet.sibId, h.packet.sibPos;
      ghost var before, slots := siblings, SlotsFor(h.packet);
      SlotsForValues(h.packet);
      SlotUpdate(slots, pos, h);
      SiblingUpdate(before, id, slots);
      SiblingUpdate(before, id, slots[pos := Some(h)]);
      var ok := InsertSibling(h);
      if !ok {
        HandOver(avail, reliable, sendQueue, siblings, owner, h.handle, InHand);
        Delete(h);
        return;
      }
      var all := AllSiblingsAvailable(id);
      if all {
        var merged := MergeSiblings(id);
        assert siblings == before - {id};
        MakeAvailable(merged);
      }
    }

    method PopAvailable() returns (pkt: Held)
      requires Valid() && |avail| == 1
      modifies this`avail, this`owner
      ensures Valid() && avail == [] && Values(avail) == [] && pkt == old(avail)[0]
      ensures pkt.handle in old(owner) && owner == old(owner)[pkt.handle := InHand]
    {
      hide Network.Ascending, Distinct;
      pkt := avail[0];
      avail := avail[1..];
      owner := owner[pkt.handle := InHand];
    }

    /**
     * The next packet in sequence, if it is available.  At most one packet ever is.  An early one keeps its memory
     * unheld.
     */
    method RecvPacket() returns (res: Option<Held>)
      requires Valid() && |avail| <= 1
      modifies this`avail, this`recvSeq, this`owner
      ensures Valid() && avail == [] && View() == Endpoints.RecvPacket(old(View())).0
      ensures (if res.Some? then Some(res.value.packet) else None) == Endpoints.RecvPacket(old(View())).1
      ensures old(avail) != [] ==> var h := old(avail[0]);
              owner == if h.packet.seqNo <= old(recvSeq) then old(owner) - {h.handle}
                  else old(owner)[h.handle := InHand]
    {
      if avail == [] {
        return None;
      }
      hide Network.Ascending, Distinct, Owned, SlotsOwned, SiblingValues;
      ghost var p := avail[0].packet;
      assert Values(avail) == [p];
      var pkt := PopAvailable();
      HandOver(avail, reliable, sendQueue, siblings, owner, pkt.handle, InHand);
      if pkt.packet.seqNo <= recvSeq {
        // a duplicate; the queue is now empty, so no further packet is looked at
        Delete(pkt);
        return None;
      }
      if pkt.packet.seqNo != Wrap32(recvSeq + 1) {
        return None;
      }
      recvSeq := Wrap32(recvSeq + (if pkt.packet.numSibs > 0 then pkt.packet.numSibs else 1));
      return Some(pkt);
    }

    // ---- sending ----

    ghost predicate NumbersLeft(n: nat)
      reads this
    {
      Numberable(View(), n)
    }

    /** Numbers the packet and queues it, unless the queue is full. */
    method AddToSendQueue(h: Held) returns (ok: bool)
      requires Valid() && h.handle in owner && owner[h.handle] == InHand && Writable(h.packet)
      requires NumbersLeft(1)
      modifies this`sendSeq, this`sendQueue, this`owner
      ensures Valid() && View() == Endpoints.AddToSendQueue(old(View()), h.packet)
      ensures ok == (old(|sendQueue|) < QUEUE_CAPACITY)
      ensures owner == if ok then old(owner)[h.handle := Queued] else old(owner)
    {
      hide Distinct, SiblingValues;
      if |sendQueue| >= QUEUE_CAPACITY {
        return false;
      }
      sendSeq := Wrap32(sendSeq + 1);
      var pak := h.(packet := h.packet.(seqNo := sendSeq));
      ghost var held := reliable + sendQueue;
      HandOver(avail, reliable, sendQueue, siblings, owner, h.handle, Queued);
      QueueOne(reliable, sendQueue, pak);
      SingleQueued(sendQueue, pak, owner);
      sendQueue := sendQueue + [pak];
      owner := owner[h.handle := Queued];
      return true;
    }

    /** The first parts of a payload, newly allocated. */
    ghost predicate Splitting(parts: seq<Held>, all: seq<Body>, isReliable: bool, owner0: map<nat, Owner>)
      requires |all| < Network.SEQUENCE_SPACE
      reads this
    {
      && |parts| <= |all| && InHands(parts)
      && (forall j :: 0 <= j < |parts| ==>
         parts[j].packet == Part(all[j], 0, 0, j, isReliable) && parts[j].handle !in owner0)
      && forall h :: h in owner0 ==> h in owner && owner[h] == owner0[h]
    }

    lemma NothingSplit(all: seq<Body>, isReliable: bool)
      requires |all| < Network.SEQUENCE_SPACE
      ensures Splitting([], all, isReliable, owner)
    {
    }

    method AllocatePart(parts: seq<Held>, block: Body, isReliable: bool, ghost all: seq<Body>,
        ghost owner0: map<nat, Owner>)
      returns (parts': seq<Held>)
      requires Valid() && |parts| < |all| < Network.SEQUENCE_SPACE && Splitting(parts, all, isReliable, owner0)
      requires all[|parts|] == block
      modifies this`owner, this`nextHandle
      ensures Valid() && |parts'| == |parts| + 1 && Splitting(parts', all, isReliable, owner0)
    {
      hide Distinct, SiblingValues, Network.Ascending, SlotsOwned;
      ghost var before := owner;
      var act := Allocate(Part(block, 0, 0, |parts|, isReliable));
      OneMoreInHand(parts, act, before);
      parts' := parts + [act];
    }

    /** Cuts a payload into parts of one block; what is left over, if anything, is the last part. */
    method PacketSplit(body: Body, isReliable: bool) returns (parts: seq<Held>)
      requires Valid() && |Split(body)| < Network.SEQUENCE_SPACE
      modifies this`owner, this`nextHandle
      ensures Valid() && |parts| == |Split(body)| && Splitting(parts, Split(body), isReliable, old(owner))
    {
      hide Valid, Split, Splitting;
      parts := [];
      var rest: Body := body;
      NothingSplit(Split(body), isReliable);
      assert [] + Split(rest) == Split(body);
      while rest.WholeBytes() > BLOCK
        invariant Valid() && |parts| <= |Split(body)| && Splitting(parts, Split(body), isReliable, old(owner))
        invariant Split(body)[..|parts|] + Split(rest) == Split(body)
        decreases rest.nbits
      {
        FirstBlock(rest);
        var block: Body := Contents(rest.bytes[..BLOCK], 8 * BLOCK);
        rest := Contents(rest.bytes[BLOCK..], rest.nbits - 8 * BLOCK);
        NextPart(Split(body), |parts|, block, Split(rest));
        parts := AllocatePart(parts, block, isReliable, Split(body), old(owner));
      }
      LastBlock(rest);
      if rest.WholeBytes() > 0 {
        NextPart(Split(body), |parts|, rest, []);
        parts := AllocatePart(parts, rest, isReliable, Split(body), old(owner));
      }
    }

    /** Distinct packets in the hands of the caller. */
    ghost predicate InHands(s: seq<Held>)
      reads this
    {
      Owned(s, InHand, owner)
    }

    /** Queues the packet, or frees it if there is no room. */
    method QueueOrFree(h: Held) returns (ok: bool)
      requires Valid() && h.handle in owner && owner[h.handle] == InHand && Writable(h.packet)
      requires NumbersLeft(1)
      modifies this`sendSeq, this`sendQueue, this`owner
      ensures Valid() && View() == Endpoints.AddToSendQueue(old(View()), h.packet)
      ensures ok == (old(|sendQueue|) < QUEUE_CAPACITY)
      ensures owner == if ok then old(owner)[h.handle := Queued] else old(owner) - {h.handle}
    {
      hide Distinct, SiblingValues, Network.Ascending, Owned, SlotsOwned, Endpoints.AddToSendQueue;
      ok := AddToSendQueue(h);
      if !ok {
        HandOver(avail, reliable, sendQueue, siblings, owner, h.handle, InHand);
        Delete(h);
      }
    }

    /** Numbers the parts one after the other, as far as the queue takes them. */
    method QueueParts(parts: seq<Held>, body: Body, id: u32, isReliable: bool)
      requires Valid() && InHands(parts) && |parts| == |Split(body)| < Network.SEQUENCE_SPACE
      requires NumbersLeft(|parts|) && |body.bytes| <= LARGEST_BODY
      requires forall j :: 0 <= j < |parts| ==> parts[j].packet == Part(Split(body)[j], 0, 0, j, isReliable)
      modifies this`sendSeq, this`sendQueue, this`owner
      ensures Valid() && View() == QueueAll(old(View()), Parts(body, id, isReliable))
      ensures forall x :: x in old(owner) && (forall j :: 0 <= j < |parts| ==> parts[j].handle != x) ==>
          x in owner && owner[x] == old(owner)[x]
    {
      hide Valid, View, Numberable, Owned, Split, Endpoints.AddToSendQueue;
      ghost var pieces := Parts(body, id, isReliable);
      PartsWritable(body, id, isReliable);
      assert parts[0..] == parts && pieces[0..] == pieces;
      for j := 0 to |parts|
        invariant Valid() && InHands(parts[j..]) && NumbersLeft(|parts| - j)
        invariant QueueAll(View(), pieces[j..]) == QueueAll(old(View()), pieces)
        invariant forall x :: x in old(owner) && (forall k :: 0 <= k < |parts| ==> parts[k].handle != x) ==>
            x in owner && owner[x] == old(owner)[x]
      {
        PieceInHand(parts, j, owner);
        var part := parts[j].(packet := parts[j].packet.(numSibs := |parts|, sibId := id));
        assert part.packet == pieces[j] && pieces[j..][0] == pieces[j] && pieces[j..][1..] == pieces[j + 1..];
        OneFewer(View(), part.packet, |parts| - j);
        var ok := QueueOrFree(part);
      }
    }

    /** Queues a payload, split if it is large; parts that do not fit the queue are freed. */
    method SendPacket(h: Held) returns (res: bool)
      requires Valid() && h.handle in owner && owner[h.handle] == InHand
      requires h.packet == Part(h.packet.body, 0, 0, 0, h.packet.reliable) && |h.packet.body.bytes| <= LARGEST_BODY
      requires NumbersLeft(if IsLarge(h.packet.body) then |Split(h.packet.body)| else 1)
      modifies this`sendSeq, this`sendQueue, this`owner, this`nextHandle, this`siblingId
      ensures Valid() && View() == Endpoints.SendPacket(old(View()), h.packet.body, h.packet.reliable)
      ensures res == SendResult(old(View()), h.packet.body)
    {
      hide Distinct, SiblingValues, Network.Ascending, Owned, SlotsOwned, Split, Endpoints.AddToSendQueue,
          QueueAll, Parts;
      if h.packet.body.WholeBytes() < BLOCK {
        res := QueueOrFree(h);
        return;
      }
      SplitParts(h.packet.body);
      var parts := PacketSplit(h.packet.body, h.packet.reliable);
      siblingId := Wrap32(siblingId + 1);
      QueueParts(parts, h.packet.body, siblingId, h.packet.reliable);
      // the packet itself is of no use any more
      HandOver(avail, reliable, sendQueue, siblings, owner, h.handle, InHand);
      Delete(h);
      return true;
    }

    // ---- wire ----

    /** Writes the smallest pending acks and forgets them. */
    method StoreAcks(bs: BitStream)
      requires bs.Roomy(FrameStreams.TABLE_ROOM)
      modifies this`recvAcks, this`unackedCount, bs, bs.buf
      ensures bs.Valid() && bs.ReaderKept() && (bs.buf == old(bs.buf) || fresh(bs.buf)) && bs.size >= 8
      ensures recvAcks == Acks.Kept(old(recvAcks)) && unackedCount == |recvAcks|
      ensures bs.Written() == old(bs.Written()) + Acks.TableBits(Acks.Sent(old(recvAcks)))
      ensures old(bs.TailClear()) ==> bs.TailClear()
    {
      hide BytesBits, Acks.TableBits;
      var all := Acks.SortUnique(recvAcks);
      var taken := FrameStreams.StoreAckTable(bs, all);
      recvAcks := all[taken..];
      unackedCount := |recvAcks|;
    }

    /** Everything of a datagram but its length, padding and checksum. */
    method WrapPacket(p: Packet) returns (strm: BitStream)
      requires Writable(p)
      modifies this`recvAcks, this`unackedCount
      ensures fresh(strm) && fresh(strm.buf) && strm.Valid() && strm.ReadPos() == 0 && strm.maxSize == NO_LIMIT
              && strm.size >= 8
      ensures recvAcks == Acks.Kept(old(recvAcks)) && unackedCount == |recvAcks|
      ensures strm.WritePos() == Frames.BitLength(p, Acks.Sent(old(recvAcks)))
      ensures strm.Stored() == Frames.ZeroBytes(Frames.HEAD_BYTES) + FrameContent(p, Acks.Sent(old(recvAcks)))
    {
      hide BytesBits, ToBits, Packed.Encode, Acks.TableBits, Frames.SiblingBits, Packed.Decode, PackBytes;
      ghost var acks := Acks.Sent(recvAcks);
      Acks.Partition(recvAcks);
      FrameStreams.HeaderLength(p, acks);
      var cmd := p.Command();
      strm := new BitStream(p.body.WholeBytes() + 64);
      FrameStreams.StoreNumbers(strm, p);
      StoreAcks(strm);
      if cmd != Frames.CONNECT {
        FrameStreams.PutFlag(strm, p.compressed);
      }
      FrontThenHeader(p, acks);
      FrameStreams.StoreBody(strm, p.body, Frames.HeaderBits(p, acks));
      ConcatAssoc(Frames.ZeroBytes(Frames.HEAD_BYTES), PackBytes(Frames.AlignedHeader(p, acks)), p.body.bytes);
    }

    /** The datagram of a packet, with its share of the pending acks. */
    method SendRaw(p: Packet) returns (frame: seq<byte>)
      requires Writable(p)
      modifies this`recvAcks, this`unackedCount
      ensures recvAcks == Acks.Kept(old(recvAcks)) && unackedCount == |recvAcks|
      ensures Acks.Increasing(Acks.Sent(old(recvAcks))) && frame == Frames.FrameBytes(p, Acks.Sent(old(recvAcks)))
    {
      hide BytesBits, StoreLE, Frames.BitLength, Frames.FrameBytes, FrameContent, Checksums.Value, Frames.PaddedLength;
      ghost var acks := Acks.Sent(recvAcks);
      Acks.Partition(recvAcks);
      FrameForm(p, acks);
      var strm := WrapPacket(p);
      FrameStreams.SealFrame(strm, FrameContent(p, acks));
      frame := strm.buf[..strm.writeOff];
    }

    /** Overdue packets join the empty retransmit queue while there is room; due holds their numbers. */
    method ProcessRetransmits(due: set<u32>)
      requires Valid() && retransmit == []
      modifies this`retransmit
      ensures Valid() && Values(retransmit) == Overdue(Values(reliable), due, QUEUE_CAPACITY)
    {
      hide Network.Ascending, SlotsOwned, Values, Overdue;
      ghost var all := Overdue(Values(reliable), due, QUEUE_CAPACITY);
      var i := 0;
      NothingOverdue(reliable, due);
      while i < |reliable| && |retransmit| < QUEUE_CAPACITY
        invariant i <= |reliable| && |retransmit| <= QUEUE_CAPACITY
        invariant Values(retransmit) + Overdue(Values(reliable[i..]), due, QUEUE_CAPACITY - |retransmit|) == all
        invariant Distinct(retransmit) && forall h :: h in retransmit ==> h in reliable[..i]
      {
        hide Owned, Distinct;
        var pkt := reliable[i];
        OverdueStep(retransmit, reliable, i, due, QUEUE_CAPACITY - |retransmit|);
        if pkt.packet.seqNo in due {
          NewInQueue(reliable, i, owner, retransmit);
          retransmit := retransmit + [pkt];
        }
        i := i + 1;
        assert reliable[..i] == reliable[..i - 1] + [pkt];
      }
      OverdueEnd(reliable[i..], due, QUEUE_CAPACITY - |retransmit|);
    }

    method SendRetransmits() returns (frames: seq<seq<byte>>)
      requires Valid()
      modifies this`retransmit, this`recvAcks, this`unackedCount
      ensures Valid() && retransmit == []
      ensures frames == Wrap(Values(old(retransmit)), old(recvAcks))
      ensures recvAcks == AcksAfter(|old(retransmit)|, old(recvAcks))
    {
      hide Network.Ascending, SlotsOwned, Owned, Values, Wrap, AcksAfter, Frames.FrameBytes;
      frames := [];
      WrapNone(recvAcks);
      while retransmit != []
        invariant Valid()
        invariant frames + Wrap(Values(retransmit), recvAcks) == Wrap(Values(old(retransmit)), old(recvAcks))
        invariant AcksAfter(|retransmit|, recvAcks) == AcksAfter(|old(retransmit)|, old(recvAcks))
        decreases |retransmit|
      {
        WrapStep(retransmit, recvAcks);
        var pak := retransmit[0];
        assert pak in reliable + sendQueue;
        var frame := SendRaw(pak.packet);
        frames := frames + [frame];
        retransmit := retransmit[1..];
      }
      WrapNone(recvAcks);
    }

    /** A packet that was sent waits for its ack; an unreliable one is freed. */
    method Settle()
      requires Valid() && retransmit == [] && sendQueue != []
      modifies this`reliable, this`sendQueue, this`owner
      ensures Valid() && sendQueue == old(sendQueue)[1..]
      ensures reliable == old(reliable) + if old(sendQueue)[0].packet.reliable then [old(sendQueue)[0]] else []
    {
      hide SlotsOwned, Owned, Network.Ascending, Values;
      var pak := sendQueue[0];
      Settled(avail, reliable, sendQueue, siblings, owner);
      ghost var held := reliable + sendQueue;
      sendQueue := sendQueue[1..];
      if pak.packet.reliable {
        if reliable != [] {
          LastIsSmaller(reliable, held);
          assert pak.packet.seqNo > reliable[|reliable| - 1].packet.seqNo;
        }
        reliable := reliable + [pak];
        owner := owner[pak.handle := Unacknowledged];
        assert reliable + sendQueue == held;
      } else {
        Delete(pak);
        WithoutOne(held, |reliable|);
        assert reliable + sendQueue == held[..|reliable|] + held[|reliable| + 1..];
      }
    }

    method SendQueued() returns (frames: seq<seq<byte>>)
      requires Valid() && retransmit == []
      modifies this`reliable, this`sendQueue, this`owner, this`recvAcks, this`unackedCount
      ensures Valid() && sendQueue == []
      ensures Values(reliable) == Values(old(reliable)) + Reliable(Values(old(sendQueue)))
      ensures frames == Wrap(Values(old(sendQueue)), old(recvAcks))
      ensures recvAcks == AcksAfter(|old(sendQueue)|, old(recvAcks))
    {
      hide Network.Ascending, SlotsOwned, Owned, Values, Distinct, Wrap, AcksAfter, Reliable, Frames.FrameBytes;
      frames := [];
      WrapNone(recvAcks);
      while sendQueue != []
        invariant Valid() && retransmit == []
        invariant frames + Wrap(Values(sendQueue), recvAcks) == Wrap(Values(old(sendQueue)), old(recvAcks))
        invariant AcksAfter(|sendQueue|, recvAcks) == AcksAfter(|old(sendQueue)|, old(recvAcks))
        invariant Values(reliable) + Reliable(Values(sendQueue))
                  == Values(old(reliable)) + Reliable(Values(old(sendQueue)))
        decreases |sendQueue|
      {
        WrapStep(sendQueue, recvAcks);
        ReliableStep(reliable, sendQueue);
        var pak := sendQueue[0];
        assert pak in reliable + sendQueue;
        var frame := SendRaw(pak.packet);
        frames := frames + [frame];
        Settle();
      }
      WrapNone(recvAcks);
      ReliableNone(reliable);
    }

    /** One round of sending: retransmissions first, then the queue. */
    lemma AllSent(e: Endpoint, due: set<u32>, frames: seq<seq<byte>>)
      requires e.retransmit == [] && frames == Wrap(Batch(e, due), e.recvAcks)
      ensures |e.reliable| <= QUEUE_CAPACITY ==>
                forall p :: (p in e.reliable && p.seqNo in due) || p in e.sendQueue ==>
                  exists f :: f in frames && Retransmits.DatagramOf(f, p)
    {
      hide Wrap, Batch, Retransmits.DatagramOf;
      forall p | |e.reliable| <= QUEUE_CAPACITY && ((p in e.reliable && p.seqNo in due) || p in e.sendQueue)
        ensures exists f :: f in frames && Retransmits.DatagramOf(f, p)
      {
        Retransmits.EveryoneSent(e, due, p);
      }
    }

    method BatchSend(unresponsive: bool, due: set<u32>) returns (sent: bool, frames: seq<seq<byte>>)
      requires Valid() && retransmit == []
      modifies this`reliable, this`sendQueue, this`retransmit, this`owner, this`recvAcks, this`unackedCount
      ensures Valid() && sent == !unresponsive
      ensures unresponsive ==> View() == old(View()) && frames == []
      ensures !unresponsive ==> View() == Endpoints.BatchSend(old(View()), due)
      ensures !unresponsive ==> frames == Wrap(Batch(old(View()), due), old(recvAcks))
      ensures !unresponsive && old(|reliable|) <= QUEUE_CAPACITY ==>
                forall p :: (p in old(View()).reliable && p.seqNo in due) || p in old(View()).sendQueue ==>
                  exists f :: f in frames && Retransmits.DatagramOf(f, p)
    {
      hide Network.Ascending, SlotsOwned, Owned, Distinct, Wrap, AcksAfter, Reliable, Overdue, SiblingValues;
      if unresponsive {
        return false, [];
      }
      ghost var acks, queued := recvAcks, Values(sendQueue);
      ghost var before := View();
      ProcessRetransmits(due);
      ghost var again := Values(retransmit);
      frames := SendRetransmits();
      WrapConcat(again, queued, acks);
      assert [] + again + queued == again + queued;
      var more := SendQueued();
      frames := frames + more;
      sent := true;
      AllSent(before, due, frames);
    }

    // ---- receiving datagrams ----

    /** Takes in one datagram, unless it is too short or damaged. */
    method ReceivedBlock(src: BitStream)
      requires Valid() && avail == []
      requires src.Valid() && !src.byteAligned && src.writeBit == 0 && src.ReadPos() == 0
      requires var f := Frames.Parse(src.Stored());
               !f.Malformed? && (f.Received? ==> Fits(View(), f.packet) && MergesSafely(View(), f.packet))
      modifies this, src`readOff, src`readBit, src`writeOff, src`writeBit, src`lastErr
      ensures Valid() && |avail| <= 1
      ensures View() == var f := Frames.Parse(old(src.Stored()));
                        if f.Received? then Endpoints.PushRecvPacket(old(View()), f.packet, AckSet(f.acks))
                        else old(View())
      ensures old(|src.Stored()|) < Frames.SHORTEST_FRAME || !Damages.ChecksumRight(old(src.Stored())) ==>
                View() == old(View()) && owner == old(owner) && nextHandle == old(nextHandle)
    {
      hide Network.Ascending, SlotsOwned, Owned, Distinct, SiblingValues, Frames.Parse, Damages.ChecksumRight, Fits,
          MergesSafely, Endpoints.PushRecvPacket;
      ghost var frame := src.Stored();
      Damages.RejectedExactly(frame);
      var f := FrameStreams.ReadFrame(src);
      if f.Received? {
        HandOver(avail, reliable, sendQueue, siblings, owner, nextHandle, InHand);
        var res := Allocate(f.packet);
        PushRecvPacket(res, AckSet(f.acks));
      }
    }

    method FindHeld(s: seq<Held>, h: Held) returns (k: nat)
      ensures k <= |s| && (k < |s| ==> s[k] == h) && (k == |s| ==> h !in s)
    {
      k := 0;
      while k < |s| && s[k] != h
        invariant k <= |s| && h !in s[..k]
      {
        k := k + 1;
      }
    }
  }

  /** As many of n packets as the queue takes can be numbered without a wrap of the 32-bit counter. */
  predicate Numberable(e: Endpoint, n: nat) {
    e.sendSeq + Sending.Taken(e, n) < Network.SEQUENCE_SPACE
  }

  lemma OneFewer(e: Endpoint, p: Packet, n: nat)
    requires n > 0 && Numberable(e, n)
    ensures Numberable(e, 1) && Numberable(Endpoints.AddToSendQueue(e, p), n - 1)
  {
  }

  lemma PartsWritable(body: Body, id: u32, isReliable: bool)
    requires |Split(body)| < Network.SEQUENCE_SPACE && |body.bytes| <= LARGEST_BODY
    ensures forall p :: p in Parts(body, id, isReliable) ==> Writable(p)
  {
    hide Split;
    SplitParts(body);
  }

  /** Header and payload as bytes. */
  ghost function FrameContent(p: Packet, acks: seq<u32>): seq<byte>
    requires Acks.Increasing(acks) && |acks| <= Acks.MAX_ACKS
  {
    PackBytes(Frames.AlignedHeader(p, acks)) + p.body.bytes
  }

  lemma FrameForm(p: Packet, acks: seq<u32>)
    requires Acks.Increasing(acks) && |acks| <= Acks.MAX_ACKS && |p.body.bytes| <= LARGEST_BODY
    ensures |FrameContent(p, acks)| <= LARGEST_BODY + 390
    ensures var n := Frames.HEAD_BYTES + |FrameContent(p, acks)|;
            var tail := FrameContent(p, acks) + Frames.ZeroBytes(Frames.PaddedLength(n) - n);
            Frames.FrameBytes(p, acks)
                == StoreLE(Frames.BitLength(p, acks), 4) + StoreLE(Checksums.Value(tail), 4) + tail
  {
    hide Frames.BitLength, Frames.AlignedHeader, Frames.NumberBits, Frames.SiblingBits, Frames.ZeroBytes,
         Frames.PaddedLength, Checksums.Value, StoreLE, PackBytes;
    FrameStreams.HeaderLength(p, acks);
  }

  lemma FrontThenHeader(p: Packet, acks: seq<u32>)
    requires Acks.Increasing(acks) && |acks| <= Acks.MAX_ACKS
    ensures var front := BytesBits(Frames.ZeroBytes(Frames.HEAD_BYTES)) + [false] + ToBits(p.seqNo, Frames.NUMBER_BITS)
            + Frames.SiblingBits(p);
            && front + Acks.TableBits(acks)
               == BytesBits(Frames.ZeroBytes(Frames.HEAD_BYTES)) + Frames.NumberBits(p, acks)
            && front + Acks.TableBits(acks) + (if Frames.WritesFlag(p) then [p.compressed] else [])
               == BytesBits(Frames.ZeroBytes(Frames.HEAD_BYTES)) + Frames.HeaderBits(p, acks)
  {
    hide BytesBits, ToBits, Frames.SiblingBits, Acks.TableBits;
  }

  lemma NothingOverdue(s: seq<Held>, due: set<u32>)
    ensures s[0..] == s && Values([]) == [] && forall h :: h !in s[..0]
  {
  }

  lemma OverdueStep(queue: seq<Held>, s: seq<Held>, i: nat, due: set<u32>, room: nat)
    requires i < |s| && room > 0
    ensures var rest := s[i + 1..];
            Values(queue) + Overdue(Values(s[i..]), due, room) ==
            if s[i].packet.seqNo in due then Values(queue + [s[i]]) + Overdue(Values(rest), due, room - 1)
            else Values(queue) + Overdue(Values(rest), due, room)
  {
    hide Values;
    assert s[i..] == [s[i]] + s[i + 1..];
    ValuesConcat([s[i]], s[i + 1..]);
    ValuesConcat(queue, [s[i]]);
  }

  lemma OverdueEnd(s: seq<Held>, due: set<u32>, room: nat)
    requires s == [] || room == 0
    ensures Overdue(Values(s), due, room) == []
  {
  }

  lemma NewInQueue(s: seq<Held>, i: nat, owner: map<nat, Owner>, queue: seq<Held>)
    requires i < |s| && Owned(s, Unacknowledged, owner) && Distinct(queue) && forall h :: h in queue ==> h in s[..i]
    ensures Distinct(queue + [s[i]])
  {
    forall k | 0 <= k < |queue|
      ensures queue[k] != s[i]
    {
      assert queue[k] in s[..i];
    }
  }

  lemma WrapNone(acks: seq<u32>)
    ensures Wrap(Values([]), acks) == [] && AcksAfter(0, acks) == acks
  {
  }

  lemma WrapStep(s: seq<Held>, acks: seq<u32>)
    requires s != []
    ensures Acks.Increasing(Acks.Sent(acks)) && |Acks.Sent(acks)| <= Acks.MAX_ACKS
    ensures Wrap(Values(s), acks)
            == [Frames.FrameBytes(s[0].packet, Acks.Sent(acks))] + Wrap(Values(s[1..]), Acks.Kept(acks))
    ensures AcksAfter(|s|, acks) == AcksAfter(|s[1..]|, Acks.Kept(acks))
  {
    hide Frames.FrameBytes;
    Acks.Partition(acks);
    assert Values(s)[1..] == Values(s[1..]);
  }

  lemma {:induction false} AcksAdd(m: nat, n: nat, acks: seq<u32>)
    ensures AcksAfter(m + n, acks) == AcksAfter(n, AcksAfter(m, acks))
    decreases m
  {
    hide Acks.Kept;
    if m > 0 { AcksAdd(m - 1, n, Acks.Kept(acks)); }
  }

  lemma {:induction false} WrapAppend(a: seq<Packet>, b: seq<Packet>, acks: seq<u32>)
    ensures Wrap(a + b, acks) == Wrap(a, acks) + Wrap(b, AcksAfter(|a|, acks))
    decreases |a|
  {
    hide Frames.FrameBytes, Acks.Sent, Acks.Kept;
    if a == [] {
      assert a + b == b;
    } else {
      Acks.Partition(acks);
      assert (a + b)[1..] == a[1..] + b;
      WrapAppend(a[1..], b, Acks.Kept(acks));
    }
  }

  lemma WrapConcat(a: seq<Packet>, b: seq<Packet>, acks: seq<u32>)
    ensures Wrap(a + b, acks) == Wrap(a, acks) + Wrap(b, AcksAfter(|a|, acks))
    ensures AcksAfter(|a + b|, acks) == AcksAfter(|b|, AcksAfter(|a|, acks))
  {
    hide Wrap, AcksAfter;
    WrapAppend(a, b, acks);
    AcksAdd(|a|, |b|, acks);
  }

  lemma ReliableStep(reliable: seq<Held>, queue: seq<Held>)
    requires queue != []
    ensures Values(reliable) + Reliable(Values(queue)) ==
            Values(reliable + if queue[0].packet.reliable then [queue[0]] else []) + Reliable(Values(queue[1..]))
  {
    hide Values;
    assert queue == [queue[0]] + queue[1..];
    ValuesConcat([queue[0]], queue[1..]);
    ValuesConcat(reliable, [queue[0]]);
    assert reliable + [] == reliable;
  }

  lemma ReliableNone(reliable: seq<Held>)
    ensures Values(reliable) + Reliable(Values([])) == Values(reliable)
  {
  }

  lemma LastIsSmaller(s: seq<Held>, held: seq<Held>)
    requires 0 < |s| < |held| && held[..|s|] == s && Network.Ascending(Values(held))
    ensures s[|s| - 1].packet.seqNo < held[|s|].packet.seqNo
  {
    assert Values(held)[|s| - 1].seqNo < Values(held)[|s|].seqNo;
  }

  lemma WithoutOne(s: seq<Held>, k: nat)
    requires k < |s| && Network.Ascending(Values(s))
    ensures Network.Ascending(Values(s[..k] + s[k + 1..])) && forall h :: h in s[..k] + s[k + 1..] ==> h in s
  {
    var t, v := s[..k] + s[k + 1..], Values(s);
    forall i, j | 0 <= i < j < |t|
      ensures Values(t)[i].seqNo < Values(t)[j].seqNo
    {
      var i', j' := if i < k then i else i + 1, if j < k then j else j + 1;
      assert t[i] == s[i'] && t[j] == s[j'] && v[i'].seqNo < v[j'].seqNo;
    }
  }

  /** The front of the send queue becomes unacknowledged or is freed. */
  lemma Settled(avail: seq<Held>, reliable: seq<Held>, queue: seq<Held>, siblings: map<u32, Slots>,
      owner: map<nat, Owner>)
    requires Owned(avail, Available, owner) && Owned(reliable, Unacknowledged, owner) && Owned(queue, Queued, owner)
    requires SlotsOwned(siblings, owner) && queue != []
    ensures queue[0].handle in owner
    ensures var owner' := owner[queue[0].handle := Unacknowledged];
            Owned(avail, Available, owner') && Owned(reliable + [queue[0]], Unacknowledged, owner')
                && Owned(queue[1..], Queued, owner')
            && SlotsOwned(siblings, owner')
    ensures var owner' := owner - {queue[0].handle};
            Owned(avail, Available, owner') && Owned(reliable, Unacknowledged, owner')
                && Owned(queue[1..], Queued, owner')
            && SlotsOwned(siblings, owner')
  {
    assert forall i :: 0 <= i < |queue[1..]| ==> queue[1..][i] == queue[i + 1];
  }

  lemma SiblingUpdate(m: map<u32, Slots>, id: u32, s: Slots)
    ensures SiblingValues(m[id := s]) == SiblingValues(m)[id := SlotValues(s)]
    ensures SiblingValues(m - {id}) == SiblingValues(m) - {id}
  {
  }

  lemma SlotUpdate(s: Slots, k: nat, h: Held)
    requires k < |s|
    ensures SlotValues(s[k := Some(h)]) == SlotValues(s)[k := Some(h.packet)]
  {
  }

  lemma WholeTaken(e: Endpoint, p: Packet)
    requires e.avail == [] && !p.HasSiblings()
    ensures Fits(e, p) && TakePacket(e, p) == e.(avail := [p])
  {
  }

  lemma SameSiblings(e: Endpoint, e': Endpoint, p: Packet)
    requires e.siblings == e'.siblings
    ensures Fits(e, p) == Fits(e', p) && (Fits(e, p) ==> MergesSafely(e, p) == MergesSafely(e', p))
  {
  }

  lemma AvailableSlots(s: Slots)
    ensures AllAvailable(SlotValues(s)) <==> forall j :: 0 <= j < |s| ==> s[j].Some?
  {
    assert forall j :: 0 <= j < |s| ==> SlotValues(s)[j].Some? == s[j].Some?;
  }

  ghost function SlotHandles(s: Slots): set<nat> {
    set k | 0 <= k < |s| && s[k].Some? :: s[k].value.handle
  }

  lemma QueueOne(reliable: seq<Held>, queue: seq<Held>, h: Held)
    requires Network.Ascending(Values(reliable + queue))
    requires forall x :: x in reliable + queue ==> x.packet.seqNo < h.packet.seqNo
    ensures Network.Ascending(Values(reliable + (queue + [h]))) && Values(queue + [h]) == Values(queue) + [h.packet]
    ensures reliable + (queue + [h]) == reliable + queue + [h]
  {
    var s := reliable + queue;
    ValuesConcat(queue, [h]);
    assert reliable + (queue + [h]) == s + [h];
    ValuesConcat(s, [h]);
    assert forall i :: 0 <= i < |s| ==> Values(s)[i] == s[i].packet && s[i] in s;
  }

  /** The first of some packets in hand, and the rest whatever becomes of it. */
  lemma PieceInHand(parts: seq<Held>, j: nat, owner: map<nat, Owner>)
    requires j < |parts| && Owned(parts[j..], InHand, owner)
    ensures parts[j].handle in owner && owner[parts[j].handle] == InHand
    ensures Owned(parts[j + 1..], InHand, owner[parts[j].handle := Queued])
    ensures Owned(parts[j + 1..], InHand, owner - {parts[j].handle})
  {
    var s, t := parts[j..], parts[j + 1..];
    assert s[0] == parts[j] && forall i :: 0 <= i < |t| ==> t[i] == s[i + 1];
  }

  lemma OneMoreInHand(s: seq<Held>, h: Held, owner: map<nat, Owner>)
    requires Owned(s, InHand, owner) && h.handle !in owner
    ensures Owned(s + [h], InHand, owner[h.handle := InHand])
  {
  }

  lemma FirstBlock(b: Body)
    requires b.WholeBytes() > BLOCK
    ensures Split(b) == [Contents(b.bytes[..BLOCK], 8 * BLOCK)] + Split(Contents(b.bytes[BLOCK..], b.nbits - 8 * BLOCK))
  {
  }

  lemma LastBlock(b: Body)
    requires b.WholeBytes() <= BLOCK
    ensures Split(b) == if b.WholeBytes() > 0 then [b] else []
  {
  }

  lemma NextPart(all: seq<Body>, k: nat, part: Body, rest: seq<Body>)
    requires k <= |all| && all[..k] + ([part] + rest) == all
    ensures k < |all| && all[k] == part && all[..k + 1] + rest == all
  {
    var again := all[..k] + ([part] + rest);
    assert again[k] == part;
    assert all[..k + 1] == all[..k] + [part];
  }

  lemma SingleQueued(queue: seq<Held>, h: Held, owner: map<nat, Owner>)
    requires Owned(queue, Queued, owner) && h.handle in owner && owner[h.handle] == InHand
    ensures Owned(queue + [h], Queued, owner[h.handle := Queued])
  {
  }

  lemma AscendingFront(s: seq<Held>, t: seq<Held>)
    requires Network.Ascending(Values(s + t))
    ensures Network.Ascending(Values(s)) && Network.Ascending(Values(t))
  {
    var v := Values(s + t);
    assert forall i :: 0 <= i < |s| ==> v[i] == Values(s)[i];
    forall i, j | 0 <= i < j < |t|
      ensures Values(t)[i].seqNo < Values(t)[j].seqNo
    {
      assert v[|s| + i] == Values(t)[i] && v[|s| + j] == Values(t)[j];
    }
  }

  /** What remains after the acked packets are freed is still held once and in order. */
  lemma KeptOwnership(reliable: seq<Held>, queue: seq<Held>, retransmit: seq<Held>, avail: seq<Held>,
      siblings: map<u32, Slots>, acks: set<u32>, owner: map<nat, Owner>)
    requires Owned(reliable, Unacknowledged, owner) && Owned(queue, Queued, owner) && Owned(avail, Available, owner)
    requires SlotsOwned(siblings, owner) && Distinct(retransmit)
    ensures var owner' := owner - Freed(reliable, acks);
            && Owned(UnackedHeld(reliable, acks), Unacknowledged, owner') && Owned(queue, Queued, owner')
            && Owned(avail, Available, owner')
            && SlotsOwned(siblings, owner') && Distinct(UnackedHeld(retransmit, acks))
  {
    hide Distinct;
    var owner' := owner - Freed(reliable, acks);
    FreedOwner(reliable, acks, owner);
    UnackedHeldDistinct(retransmit, acks);
    OwnedKept(queue, Queued, owner, owner');
    OwnedKept(avail, Available, owner, owner');
    UnackedHeldOwned(reliable, acks, Unacknowledged, owner);
    KeptOwned(reliable, acks, owner);
  }

  lemma FreedOnly(owner: map<nat, Owner>, gone: set<nat>, bound: nat)
    requires forall h :: h in owner ==> h < bound
    ensures forall h :: h in owner - gone ==> h < bound
  {
  }

  lemma KeptAscending(reliable: seq<Held>, queue: seq<Held>, acks: set<u32>)
    requires Network.Ascending(Values(reliable + queue))
    ensures Network.Ascending(Values(UnackedHeld(reliable, acks) + queue))
  {
    hide Network.Ascending, Values;
    ValuesConcat(reliable, queue);
    ValuesConcat(UnackedHeld(reliable, acks), queue);
    UnackedHeldValues(reliable, acks);
    assert [] + Values(reliable) + Values(queue) == Values(reliable + queue);
    AckProofs.UnackedAscending([], Values(reliable), Values(queue), acks);
    assert [] + Unacked(Values(reliable), acks) + Values(queue) == Values(UnackedHeld(reliable, acks) + queue);
  }

  lemma FreedOwner(s: seq<Held>, ids: set<u32>, owner: map<nat, Owner>)
    requires Owned(s, Unacknowledged, owner)
    ensures forall h :: h in Freed(s, ids) ==> h in owner && owner[h] == Unacknowledged
  {
  }

  /** A packet in hand is in no container, so what becomes of it does not disturb them. */
  lemma HandOver(avail: seq<Held>, reliable: seq<Held>, queue: seq<Held>, siblings: map<u32, Slots>,
      owner: map<nat, Owner>, h: nat, o: Owner)
    requires Owned(avail, Available, owner) && Owned(reliable, Unacknowledged, owner) && Owned(queue, Queued, owner)
    requires SlotsOwned(siblings, owner) && (h in owner ==> owner[h] == InHand)
    ensures var owner' := owner[h := o];
            Owned(avail, Available, owner') && Owned(reliable, Unacknowledged, owner') && Owned(queue, Queued, owner')
            && SlotsOwned(siblings, owner')
    ensures var owner' := owner - {h};
            Owned(avail, Available, owner') && Owned(reliable, Unacknowledged, owner') && Owned(queue, Queued, owner')
            && SlotsOwned(siblings, owner')
  {
  }

  /** Freeing the parts of one group leaves everything else as it was. */
  lemma GroupFreed(avail: seq<Held>, reliable: seq<Held>, queue: seq<Held>, siblings: map<u32, Slots>,
      owner: map<nat, Owner>, id: u32)
    requires Owned(avail, Available, owner) && Owned(reliable, Unacknowledged, owner) && Owned(queue, Queued, owner)
    requires SlotsOwned(siblings, owner) && id in siblings
    ensures var owner' := owner - SlotHandles(siblings[id]);
            Owned(avail, Available, owner') && Owned(reliable, Unacknowledged, owner') && Owned(queue, Queued, owner')
            && SlotsOwned(siblings - {id}, owner')
  {
    var gone := SlotHandles(siblings[id]);
    forall h | h in gone
      ensures h in owner && owner[h].InSlot? && owner[h].id == id
    {
    }
  }

  /** The slots of a group, new ones included, hold what is owned by them. */
  lemma StorageOwned(siblings: map<u32, Slots>, owner: map<nat, Owner>, p: Packet)
    requires SlotsOwned(siblings, owner)
    ensures var id := p.sibId;
            var storage := if id in siblings && siblings[id] != [] then siblings[id] else seq(p.numSibs, _ => None);
            && SlotsOwned(siblings[id := storage], owner)
            && forall pos :: 0 <= pos < |storage| && storage[pos].Some? ==> storage[pos].value.packet.sibId == id
  {
  }

  lemma SlotFilled(siblings: map<u32, Slots>, owner: map<nat, Owner>, h: Held, pos: nat)
    requires SlotsOwned(siblings, owner) && h.packet.sibId in siblings && pos < |siblings[h.packet.sibId]|
    requires h.handle in owner && owner[h.handle] == InSlot(h.packet.sibId, pos)
    ensures SlotsOwned(siblings[h.packet.sibId := siblings[h.packet.sibId][pos := Some(h)]], owner)
  {
  }

  lemma PartsOwned(siblings: map<u32, Slots>, owner: map<nat, Owner>, id: u32)
    requires SlotsOwned(siblings, owner) && id in siblings
    ensures SlotHandles(siblings[id]) <= owner.Keys
  {
  }

  lemma StillInHand(s: seq<Held>, ids: set<u32>, owner: map<nat, Owner>, h: nat)
    requires Owned(s, Unacknowledged, owner) && h in owner && owner[h] == InHand
    ensures h !in Freed(s, ids)
  {
  }

  lemma KeptOwned(s: seq<Held>, ids: set<u32>, owner: map<nat, Owner>)
    requires Owned(s, Unacknowledged, owner) && Owned(UnackedHeld(s, ids), Unacknowledged, owner)
    ensures Owned(UnackedHeld(s, ids), Unacknowledged, owner - Freed(s, ids))
  {
    var r := UnackedHeld(s, ids);
    forall i | 0 <= i < |r|
      ensures r[i].handle !in Freed(s, ids)
    {
      assert r[i] in r;
    }
  }

  lemma NotHeld(s: seq<Held>, packs: Slots, done: set<u32>, id: u32)
    requires Nulled(packs, s, done) && forall j :: 0 <= j < |packs| ==>
             packs[j].None? || packs[j].value.packet.seqNo != id
    ensures Nulled(packs, s, done + {id}) && Freed(s, done + {id}) == Freed(s, done)
    ensures forall h :: h in s && h.packet.seqNo == id ==> id in done
  {
  }

  lemma UniqueNumber(s: seq<Held>, i: nat)
    requires Network.Ascending(Values(s)) && i < |s|
    ensures forall j :: 0 <= j < |s| && s[j].packet.seqNo == s[i].packet.seqNo ==> j == i
    ensures forall h :: h in s && h.packet.seqNo == s[i].packet.seqNo ==> h == s[i]
  {
    var v := Values(s);
    forall j | 0 <= j < |s| && j != i
      ensures s[j].packet.seqNo != s[i].packet.seqNo
    {
      assert v[j].seqNo != v[i].seqNo;
    }
  }

  lemma FreedOne(s: seq<Held>, i: nat, done: set<u32>, id: u32)
    requires Network.Ascending(Values(s)) && i < |s| && s[i].packet.seqNo == id
    ensures Freed(s, done + {id}) == Freed(s, done) + {s[i].handle}
  {
    UniqueNumber(s, i);
  }

  function SiblingValues(siblings: map<u32, Slots>): map<u32, Storage> {
    map id | id in siblings :: SlotValues(siblings[id])
  }
}
