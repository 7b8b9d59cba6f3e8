/** Two endpoints over a network that may drop, duplicate and reorder datagrams but not alter them. */
module Network {
  import opened Bits
  import opened Options
  import opened Packets
  import opened SiblingBodies
  import opened Endpoints
  import Packed = PackedCode
  import Acks
  import Frames

  const SEQUENCE_SPACE: nat := 0x1_0000_0000

  /** A payload of which at least one packet was queued: count of its total parts (0 if it was not split). */
  datatype Message = Message(body: Body, reliable: bool, first: nat, count: nat, total: nat, sibId: nat)

  /** An endpoint with its history: payloads queued, packets numbered, numbers seen, payloads handed up. */
  datatype Node = Node(e: Endpoint, log: seq<Message>, all: seq<Packet>, groups: nat, seen: set<u32>,
      delivered: seq<Body>)

  /** crashed records a failed assertion or an access out of bounds. */
  datatype World = World(me: Node, peer: Node, out: set<seq<byte>>, inc: set<seq<byte>>, crashed: bool)

  datatype Action =
    | Send(body: Body, reliable: bool)
    | BatchSend(unresponsive: bool, due: set<u32>)
    | Receive(frame: seq<byte>)

  const FRESH_NODE := Node(FRESH_ENDPOINT, [], [], 0, {}, [])
  const FRESH_WORLD := World(FRESH_NODE, FRESH_NODE, {}, {}, false)

  function Flip(w: World): World {
    World(w.peer, w.me, w.inc, w.out, w.crashed)
  }

  // ---- steps ----

  /** Payloads the streams can hold. */
  predicate Sendable(body: Body) {
    |body.bytes| <= LARGEST_BODY
  }

  predicate Enabled(w: World, a: Action) {
    match a
    case Send(body, _) => Sendable(body)
    case BatchSend(_, _) => true
    case Receive(frame) => frame in w.inc
  }

  function SendOn(n: Node, body: Body, reliable: bool): Node
    requires Sendable(body)
  {
    var e := SendPacket(n.e, body, reliable);
    var queued := if |e.sendQueue| > |n.e.sendQueue| then e.sendQueue[|n.e.sendQueue|..] else [];
    var m := Message(body, reliable, |n.all| + 1, |queued|, if IsLarge(body) then |Split(body)| else 0,
        if IsLarge(body) then e.siblingId else 0);
    n.(e := e, all := n.all + queued, groups := if IsLarge(body) then n.groups + 1 else n.groups,
       log := if queued == [] then n.log else n.log + [m])
  }

  /** The check made before each reliable packet joins the reliable ones. */
  predicate InOrder(reliable: seq<Packet>, queue: seq<Packet>)
    decreases |queue|
  {
    queue == []
    || (if queue[0].reliable
        then (reliable == [] || reliable[|reliable| - 1].seqNo < queue[0].seqNo)
            && InOrder(reliable + [queue[0]], queue[1..])
        else InOrder(reliable, queue[1..]))
  }

  function BatchOn(w: World, due: set<u32>): World {
    var e := w.me.e;
    var frames := Wrap(Batch(e, due), e.recvAcks);
    w.(me := w.me.(e := Endpoints.BatchSend(e, due)),
       out := w.out + (set f | f in frames),
       crashed := w.crashed || !InOrder(e.reliable, e.sendQueue))
  }

  function ReceiveOn(w: World, frame: seq<byte>): World {
    var e := w.me.e;
    match Frames.Parse(frame)
    case Received(p, acks) =>
      if e.avail != [] || !Fits(e, p) || !MergesSafely(e, p) || !IdsAgree(e, p) then w.(crashed := true)
      else
        var r := Deliver(e, frame);
        w.(me := w.me.(e := r.0, seen := w.me.seen + {p.seqNo},
                       delivered := w.me.delivered + (if r.1.Some? then [r.1.value.body] else [])))
    case Malformed => w.(crashed := true)
    case _ => w
  }

  function Step(w: World, a: Action): World
    requires Enabled(w, a)
  {
    match a
    case Send(body, reliable) => w.(me := SendOn(w.me, body, reliable))
    case BatchSend(unresponsive, due) => if unresponsive then w else BatchOn(w, due)
    case Receive(frame) => ReceiveOn(w, frame)
  }

  /** A move names the side that acts. */
  datatype Move = Move(byPeer: bool, action: Action)

  predicate CanMove(w: World, m: Move) {
    Enabled(if m.byPeer then Flip(w) else w, m.action)
  }

  function Next(w: World, m: Move): World
    requires CanMove(w, m)
  {
    if m.byPeer then Flip(Step(Flip(w), m.action)) else Step(w, m.action)
  }

  predicate IsRun(w: World, moves: seq<Move>)
    decreases |moves|
  {
    moves == [] || (CanMove(w, moves[0]) && IsRun(Next(w, moves[0]), moves[1..]))
  }

  function Run(w: World, moves: seq<Move>): World
    requires IsRun(w, moves)
    decreases |moves|
  {
    if moves == [] then w else Run(Next(w, moves[0]), moves[1..])
  }

  /**
   * The receiver can read every datagram for these packets; exactly if asked for.  Only a payload that starts with the
   * packed number 1 is ever read differently.
   */
  predicate LegibleFrames(ps: seq<Packet>, pending: seq<u32>, exact: bool)
    decreases |ps|
  {
    ps == []
    || (Acks.Partition(pending);
        IsLegible(ps[0], Acks.Sent(pending), exact) && LegibleFrames(ps[1..], Acks.Kept(pending), exact))
  }

  predicate IsLegible(p: Packet, acks: seq<u32>, exact: bool)
    requires Acks.Increasing(acks) && |acks| <= Acks.MAX_ACKS
  {
    Frames.Readable(p, acks) && (exact ==> Frames.Transparent(p, acks))
  }

  /** A batch is legible if all its datagrams are; no other action puts anything on the wire. */
  predicate Legible(w: World, a: Action, exact: bool) {
    a.BatchSend? && !a.unresponsive ==> LegibleFrames(Batch(w.me.e, a.due), w.me.e.recvAcks, exact)
  }

  predicate LegibleMove(w: World, m: Move, exact: bool) {
    Legible(if m.byPeer then Flip(w) else w, m.action, exact)
  }

  /** Every batch of the run is legible. */
  predicate LegibleRun(w: World, moves: seq<Move>, exact: bool)
    requires IsRun(w, moves)
    decreases |moves|
  {
    moves == [] || (LegibleMove(w, moves[0], exact) && LegibleRun(Next(w, moves[0]), moves[1..], exact))
  }

  /** Neither side has used up the 32-bit sequence numbers or sibling ids. */
  predicate NoWrap(w: World) {
    && |w.me.all| < SEQUENCE_SPACE && w.me.groups < SEQUENCE_SPACE
    && |w.peer.all| < SEQUENCE_SPACE && w.peer.groups < SEQUENCE_SPACE
  }

  // ---- the invariant ----

  /** Part j of a message as it was numbered. */
  function PartOf(m: Message, j: nat): Packet
    requires m.total == 0 || (m.total == |Split(m.body)| && j < m.total)
    requires m.first + j < SEQUENCE_SPACE && m.total < SEQUENCE_SPACE && m.sibId < SEQUENCE_SPACE && j < SEQUENCE_SPACE
  {
    if m.total == 0 then Packet(m.first, 0, 0, 0, m.reliable, false, m.body)
    else Packet(m.first + j, m.total, m.sibId, j, m.reliable, false, Split(m.body)[j])
  }

  /** A message and the packets numbered for it. */
  ghost predicate MessageOk(m: Message, all: seq<Packet>, groups: nat) {
    && 1 <= m.count && 1 <= m.first && m.first + m.count <= |all| + 1 <= SEQUENCE_SPACE
    && groups < SEQUENCE_SPACE && |m.body.bytes| <= LARGEST_BODY
    && (if m.total == 0 then m.count == 1 && m.sibId == 0
        else
          && m.body.WholeBytes() > 0 && m.total == |Split(m.body)| < SEQUENCE_SPACE
          && m.count <= m.total && 1 <= m.sibId <= groups)
    && forall j :: 0 <= j < m.count ==> all[m.first - 1 + j] == PartOf(m, j)
  }

  /** The last number used by the messages. */
  function End(log: seq<Message>): int {
    if log == [] then 0 else log[|log| - 1].first + log[|log| - 1].count - 1
  }

  /** The messages number all packets without gaps, and sibling ids are not reused. */
  ghost predicate LogOk(log: seq<Message>, all: seq<Packet>, groups: nat) {
    && (forall k :: 0 <= k < |log| ==> MessageOk(log[k], all, groups))
    && (forall k :: 0 <= k < |log| ==> log[k].first == End(log[..k]) + 1)
    && End(log) == |all|
    && (forall k, l :: 0 <= k < l < |log| && log[k].total > 0 && log[l].total > 0 ==> log[k].sibId < log[l].sibId)
  }

  /** What every numbered packet satisfies. */
  ghost predicate PacketOk(p: Packet) {
    p.Valid() && !p.compressed && p.body.nbits < 8 * (BLOCK + 1)
  }

  ghost predicate Ascending(ps: seq<Packet>) {
    forall i, j :: 0 <= i < j < |ps| ==> ps[i].seqNo < ps[j].seqNo
  }

  ghost predicate Numbered(p: Packet, all: seq<Packet>) {
    1 <= p.seqNo <= |all| && all[p.seqNo - 1] == p
  }

  ghost predicate SenderOk(n: Node) {
    && |n.all| < SEQUENCE_SPACE && n.e.sendSeq == |n.all| && n.e.siblingId == n.groups
    && LogOk(n.log, n.all, n.groups)
    && (forall i :: 0 <= i < |n.all| ==> n.all[i].seqNo == i + 1 && PacketOk(n.all[i]))
    && n.e.retransmit == [] && n.e.avail == []
    && Ascending(n.e.reliable + n.e.sendQueue)
    && (forall p :: p in n.e.reliable + n.e.sendQueue ==> Numbered(p, n.all))
  }

  ghost predicate FrameOf(f: seq<byte>, s: Node, i: nat, acks: seq<u32>, exact: bool) {
    && i < |s.all| && Acks.Increasing(acks) && |acks| <= Acks.MAX_ACKS
    && (forall a :: a in acks ==> a in s.seen)
    && f == Frames.FrameBytes(s.all[i], acks) && IsLegible(s.all[i], acks, exact)
  }

  ghost predicate NetOk(net: set<seq<byte>>, s: Node, exact: bool) {
    forall f :: f in net ==> exists i: nat, acks: seq<u32> :: FrameOf(f, s, i, acks, exact)
  }

  /** The slots of a group hold parts of one message of the sender. */
  ghost predicate GroupOf(s: Node, id: u32, slots: Storage, k: nat) {
    && k < |s.log| && MessageOk(s.log[k], s.all, s.groups)
    && s.log[k].total > 0 && s.log[k].sibId == id && |slots| == s.log[k].total
    && forall j :: 0 <= j < |slots| && slots[j].Some? ==>
         j < s.log[k].count && slots[j].value == PartOf(s.log[k], j).(reliable := true)
  }

  /** The payload as it is handed up: all of it, or, unless exact, one that starts with the packed number 1 cut. */
  predicate ComesAs(m: Message, b: Body, exact: bool) {
    b == m.body || (!exact && LosesFirst(m, b))
  }

  /** A whole payload that starts with the packed number 1 has lost its first byte. */
  predicate LosesFirst(m: Message, b: Body) {
    && m.total == 0 && Packed.Decode(m.body.Bits(), 1, 0).value == Frames.CONNECT
    && m.body.nbits >= 8 && b == Frames.WithoutFirst(m.body)
  }

  /** Every packet the payload became was queued. */
  predicate Complete(m: Message) {
    m.total == 0 || m.count == m.total
  }

  ghost predicate ReceiverOk(s: Node, r: Node, exact: bool) {
    && |r.delivered| <= |s.log|
    && (forall k :: 0 <= k < |r.delivered| ==> ComesAs(s.log[k], r.delivered[k], exact) && Complete(s.log[k]))
    && r.e.recvSeq == (if |r.delivered| < |s.log| then s.log[|r.delivered|].first - 1 else |s.all|)
    && (forall id :: id in r.e.siblings ==> exists k: nat :: GroupOf(s, id, r.e.siblings[id], k))
    && (forall a :: a in r.e.recvAcks ==> a in r.seen)
  }

  /** Every reliable packet is still held, or the peer has seen its number. */
  ghost predicate NothingLost(s: Node, r: Node) {
    forall p :: p in s.all && p.reliable ==> p in s.e.sendQueue || p in s.e.reliable || p.seqNo in r.seen
  }

  ghost predicate Direction(s: Node, r: Node, net: set<seq<byte>>, exact: bool) {
    SenderOk(s) && NetOk(net, s, exact) && ReceiverOk(s, r, exact) && NothingLost(s, r)
  }

  ghost predicate Inv(w: World, exact: bool) {
    !w.crashed && Direction(w.me, w.peer, w.out, exact) && Direction(w.peer, w.me, w.inc, exact)
  }
}
