/** The bytes of one datagram: what the sender builds, and what the receiver makes of any bytes. */
module Frames {
  import opened Bits
  import opened Options
  import opened Packets
  import Packed = PackedCode
  import Acks
  import Checksums

  const NUMBER_BITS: nat := 32
  const CONNECT: u32 := 1
  const HEAD_BYTES: nat := 8
  const SHORTEST_FRAME: nat := 12

  // ---- building ----

  function SiblingBits(p: Packet): seq<bool> {
    Packed.Encode(p.numSibs, 1) +
        if p.HasSiblings() then Packed.Encode(p.sibPos, 1) + ToBits(p.sibId, NUMBER_BITS) else []
  }

  /** Debug flag, sequence number, siblings, acks. */
  function NumberBits(p: Packet, acks: seq<u32>): seq<bool>
    requires Acks.Increasing(acks) && |acks| <= Acks.MAX_ACKS
  {
    [false] + ToBits(p.seqNo, NUMBER_BITS) + SiblingBits(p) + Acks.TableBits(acks)
  }

  /** Whether the compressed flag is written. */
  predicate WritesFlag(p: Packet) {
    p.Command() != CONNECT
  }

  function HeaderBits(p: Packet, acks: seq<u32>): seq<bool>
    requires Acks.Increasing(acks) && |acks| <= Acks.MAX_ACKS
  {
    NumberBits(p, acks) + if WritesFlag(p) then [p.compressed] else []
  }

  function AlignedHeader(p: Packet, acks: seq<u32>): (r: seq<bool>)
    requires Acks.Increasing(acks) && |acks| <= Acks.MAX_ACKS
    ensures |r| % 8 == 0
  {
    hide *;
    var h := HeaderBits(p, acks);
    h + Pad(|h|)
  }

  /** Header and payload up to the last bit, in bits, with the eight bytes in front. */
  function BitLength(p: Packet, acks: seq<u32>): nat
    requires Acks.Increasing(acks) && |acks| <= Acks.MAX_ACKS
  {
    8 * HEAD_BYTES + |AlignedHeader(p, acks)| + p.body.nbits
  }

  function ZeroBytes(n: nat): (r: seq<byte>)
    ensures |r| == n
  {
    seq(n, _ => 0)
  }

  /** The length of the datagram for n bytes of frame. */
  function PaddedLength(n: nat): (r: nat)
    ensures n <= r < n + 8 && r % 8 == 4
  {
    (n + 3) / 8 * 8 + 4
  }

  /** Everything after the eight bytes in front. */
  function Tail(p: Packet, acks: seq<u32>): seq<byte>
    requires Acks.Increasing(acks) && |acks| <= Acks.MAX_ACKS
  {
    var content := PackBytes(AlignedHeader(p, acks)) + p.body.bytes;
    var n := HEAD_BYTES + |content|;
    content + ZeroBytes(PaddedLength(n) - n)
  }

  function FrameBytes(p: Packet, acks: seq<u32>): seq<byte>
    requires Acks.Increasing(acks) && |acks| <= Acks.MAX_ACKS
  {
    StoreLE(BitLength(p, acks), 4) + StoreLE(Checksums.Value(Tail(p, acks)), 4) + Tail(p, acks)
  }

  // ---- parsing ----

  datatype Siblings = Siblings(count: u32, position: u32, id: u32, consumed: nat)

  datatype Header = Header(seqNo: u32, siblings: Siblings, acks: seq<u32>, compressed: bool, length: nat)

  /** Malformed stands for bytes on which an assertion of the receiver fails. */
  datatype Parsed = TooShort | BadChecksum | Malformed | Received(packet: Packet, acks: seq<u32>)

  function NumberAt(b: seq<bool>, at: nat): u32
    requires at + NUMBER_BITS <= |b|
  {
    Packed.Pow2Value32();
    FromBits(b[at..at + NUMBER_BITS])
  }

  function ParseSiblings(b: seq<bool>): (r: Option<Siblings>)
    ensures r.Some? ==> r.value.consumed <= |b|
  {
    var n := Packed.Decode(b, 1, 0);
    if n.value == 0 then Some(Siblings(0, 0, 0, n.consumed))
    else
      var pos := Packed.Decode(b[n.consumed..], 1, 0);
      var k := n.consumed + pos.consumed;
      if |b| < k + NUMBER_BITS then None
      else Some(Siblings(n.value, pos.value, NumberAt(b, k), k + NUMBER_BITS))
  }

  function ParseHeader(b: seq<bool>): (r: Option<Header>)
    ensures r.Some? ==> r.value.length <= |b|
  {
    if |b| < 1 + NUMBER_BITS || b[0] then None
    else
      var rest := b[1 + NUMBER_BITS..];
      var s := ParseSiblings(rest);
      if s.None? then None
      else
        var a := Acks.ParseTable(rest[s.value.consumed..]);
        var k := 1 + NUMBER_BITS + s.value.consumed + a.consumed;
        // reading past the end yields -1, which is true
        if k == |b| then Some(Header(NumberAt(b, 1), s.value, a.acks, true, k))
        else Some(Header(NumberAt(b, 1), s.value, a.acks, b[k], k + 1))
  }

  /** The payload starts at the next byte boundary and ends where the stored bit length says. */
  function Payload(tail: seq<byte>, bitLength: nat, h: Header): Parsed
    requires bitLength <= 8 * (HEAD_BYTES + |tail|) && h.length <= 8 * |tail|
  {
    var start := BytesFor(h.length);
    if bitLength < 8 * (HEAD_BYTES + start) then Malformed
    else
      var left := bitLength - 8 * (HEAD_BYTES + start);
      var s := h.siblings;
      var body := Contents(tail[start..start + BytesFor(left)], left);
      Received(Packet(h.seqNo, s.count, s.id, s.position, true, h.compressed, body), h.acks)
  }

  function ParseTail(tail: seq<byte>, bitLength: nat): Parsed
    requires bitLength <= 8 * (HEAD_BYTES + |tail|)
  {
    var h := ParseHeader(BytesBits(tail));
    if h.None? then Malformed else Payload(tail, bitLength, h.value)
  }

  function Parse(frame: seq<byte>): Parsed {
    if |frame| < SHORTEST_FRAME then TooShort
    else
      var bitLength := LoadLE(frame[..4]);
      if bitLength < 32 || bitLength > 8 * |frame| then Malformed
      else if Checksums.Value(frame[8..]) != LoadLE(frame[4..8]) then BadChecksum
      else ParseTail(frame[8..], bitLength)
  }

  // ---- the parser undoes the builder ----

  lemma SiblingsRoundTrip(p: Packet, tail: seq<bool>)
    requires p.Valid()
    ensures ParseSiblings(SiblingBits(p) + tail) == Some(Siblings(p.numSibs, p.sibPos, p.sibId, |SiblingBits(p)|))
  {
    hide Packed.Decode, Packed.Encode, ToBits, FromBits, BytesBits;
    var n := Packed.Encode(p.numSibs, 1);
    if p.HasSiblings() {
      var pos, id := Packed.Encode(p.sibPos, 1), ToBits(p.sibId, NUMBER_BITS);
      var b := SiblingBits(p) + tail;
      assert b == n + (pos + (id + tail));
      Packed.RoundTrip(p.numSibs, 1, 0, pos + (id + tail));
      assert b[|n|..] == pos + (id + tail);
      Packed.RoundTrip(p.sibPos, 1, 0, id + tail);
      NumberBack(n + pos, p.sibId, tail);
      assert b == n + pos + id + tail;
    } else {
      Packed.RoundTrip(0, 1, 0, tail);
      assert n + [] == n;
    }
  }

  lemma NumberBack(front: seq<bool>, v: u32, tail: seq<bool>)
    ensures NumberAt(front + ToBits(v, NUMBER_BITS) + tail, |front|) == v
  {
    hide ToBits, FromBits;
    var b, k := front + ToBits(v, NUMBER_BITS) + tail, |front|;
    assert b[k..k + NUMBER_BITS] == ToBits(v, NUMBER_BITS);
    Packed.Pow2Value32();
    FromToBits(v, NUMBER_BITS);
  }

  /** The numbers parse back; the bit after them, if any, is taken for the compressed flag. */
  lemma NumbersRoundTrip(p: Packet, acks: seq<u32>, tail: seq<bool>)
    requires p.Valid() && Acks.Increasing(acks) && |acks| <= Acks.MAX_ACKS && tail != []
    ensures ParseHeader(NumberBits(p, acks) + tail) ==
            Some(Header(p.seqNo, Siblings(p.numSibs, p.sibPos, p.sibId, |SiblingBits(p)|), acks, tail[0],
                |NumberBits(p, acks)| + 1))
  {
    hide ToBits, FromBits, SiblingBits, Acks.TableBits, Acks.ParseTable, ParseSiblings;
    var seqNo, sibs, table := ToBits(p.seqNo, NUMBER_BITS), SiblingBits(p), Acks.TableBits(acks);
    var b := NumberBits(p, acks) + tail;
    var rest := b[1 + NUMBER_BITS..];
    assert rest == sibs + (table + tail);
    SiblingsRoundTrip(p, table + tail);
    assert rest[|sibs|..] == table + tail;
    Acks.RoundTrip(acks, tail);
    assert b == [false] + seqNo + (sibs + table + tail);
    NumberBack([false], p.seqNo, sibs + table + tail);
    assert b[|NumberBits(p, acks)|] == tail[0];
  }

  /** The bit layout of everything after the eight bytes in front. */
  lemma TailBits(p: Packet, acks: seq<u32>)
    requires p.Valid() && Acks.Increasing(acks) && |acks| <= Acks.MAX_ACKS
    ensures var a := AlignedHeader(p, acks);
            && |Tail(p, acks)| >= |a| / 8 + |p.body.bytes|
            && Tail(p, acks)[|a| / 8..|a| / 8 + |p.body.bytes|] == p.body.bytes
            && BytesBits(Tail(p, acks))[..|a| + 8 * |p.body.bytes|] == a + BytesBits(p.body.bytes)
  {
    hide AlignedHeader, BytesBits, PackBytes;
    var a, t := AlignedHeader(p, acks), Tail(p, acks);
    var content := PackBytes(a) + p.body.bytes;
    assert t[..|content|] == content;
    PackBytesBits(a);
    BytesBitsConcat(PackBytes(a), p.body.bytes);
    BytesBitsCut(t, |content|);
    assert 8 * |content| == |a| + 8 * |p.body.bytes|;
  }

  /** What follows the numbers is never empty. */
  function AfterNumbers(p: Packet, acks: seq<u32>): seq<bool>
    requires Acks.Increasing(acks) && |acks| <= Acks.MAX_ACKS
  {
    (if WritesFlag(p) then [p.compressed] else []) + Pad(|HeaderBits(p, acks)|) + BytesBits(p.body.bytes)
  }

  lemma HeaderParses(p: Packet, acks: seq<u32>)
    requires p.Valid() && Acks.Increasing(acks) && |acks| <= Acks.MAX_ACKS
    ensures var n, after := NumberBits(p, acks), AfterNumbers(p, acks);
            && after != []
            && ParseHeader(BytesBits(Tail(p, acks))) ==
               Some(Header(p.seqNo, Siblings(p.numSibs, p.sibPos, p.sibId, |SiblingBits(p)|), acks, after[0], |n| + 1))
  {
    hide NumberBits, BytesBits, SiblingBits, ParseHeader, Tail, Packed.Decode;
    var n, after, t := NumberBits(p, acks), AfterNumbers(p, acks), BytesBits(Tail(p, acks));
    TailBits(p, acks);
    var k := |AlignedHeader(p, acks)| + 8 * |p.body.bytes|;
    assert t[..k] == n + after;
    assert t == t[..k] + t[k..];
    if p.body.bytes == [] { NoCommand(p); }
    NumbersRoundTrip(p, acks, after + t[k..]);
    ConcatAssoc(n, after, t[k..]);
  }

  lemma NoCommand(p: Packet)
    requires p.body.bytes == []
    ensures WritesFlag(p)
  {
    assert p.body.Bits() == [];
  }

  /** The exact condition under which the receiver gets back what was sent. */
  predicate Transparent(p: Packet, acks: seq<u32>)
    requires Acks.Increasing(acks) && |acks| <= Acks.MAX_ACKS
  {
    p.Command() != CONNECT || (|NumberBits(p, acks)| % 8 != 0 && !p.compressed)
  }

  /** The flag is missing and the payload follows at once, so its first bit is taken for the flag. */
  predicate Misread(p: Packet, acks: seq<u32>)
    requires Acks.Increasing(acks) && |acks| <= Acks.MAX_ACKS
  {
    p.Command() == CONNECT && |NumberBits(p, acks)| % 8 == 0
  }

  /** The exact condition under which the receiver can read a datagram at all. */
  predicate Readable(p: Packet, acks: seq<u32>)
    requires Acks.Increasing(acks) && |acks| <= Acks.MAX_ACKS
  {
    Misread(p, acks) ==> p.body.nbits >= 8
  }

  /** A payload without its first byte. */
  function WithoutFirst(b: Body): Body
    requires b.nbits >= 8
  {
    Contents(b.bytes[1..], b.nbits - 8)
  }

  /** The packet as the receiver sees it: a misread payload lacks its first byte. */
  function Arriving(p: Packet, acks: seq<u32>): Packet
    requires Acks.Increasing(acks) && |acks| <= Acks.MAX_ACKS && Readable(p, acks)
  {
    if Misread(p, acks) then p.(reliable := true, compressed := p.body.Bits()[0], body := WithoutFirst(p.body))
    else p.(reliable := true, compressed := p.compressed && WritesFlag(p))
  }

  lemma ArrivingExactly(p: Packet, acks: seq<u32>)
    requires Acks.Increasing(acks) && |acks| <= Acks.MAX_ACKS
    ensures Transparent(p, acks) ==> Readable(p, acks)
    ensures Readable(p, acks) ==> (Arriving(p, acks) == p.(reliable := true) <==> Transparent(p, acks))
  {
    hide NumberBits, Packed.Decode, BytesBits;
  }

  /** Where the receiver looks for the payload: at its start, or one byte behind it. */
  lemma PayloadStart(p: Packet, acks: seq<u32>)
    requires Acks.Increasing(acks) && |acks| <= Acks.MAX_ACKS
    ensures var n, a := |NumberBits(p, acks)|, |AlignedHeader(p, acks)|;
            a % 8 == 0 && BytesFor(n + 1) == a / 8 + if Misread(p, acks) then 1 else 0
  {
    hide NumberBits, Packed.Decode, BytesBits;
  }

  /** What follows the numbers starts with the flag, if there is one; a misread payload provides it. */
  lemma FlagRead(p: Packet, acks: seq<u32>)
    requires Acks.Increasing(acks) && |acks| <= Acks.MAX_ACKS
    ensures Misread(p, acks) ==> AfterNumbers(p, acks) == BytesBits(p.body.bytes) && p.body.nbits > 0
    ensures !Misread(p, acks) ==>
            AfterNumbers(p, acks) != [] && AfterNumbers(p, acks)[0] == (p.compressed && WritesFlag(p))
  {
    hide NumberBits, Packed.Decode, BytesBits;
    if p.body.nbits == 0 { NoCommand(p); }
  }

  /** What the parser makes of every frame. */
  lemma TailParses(p: Packet, acks: seq<u32>)
    requires p.Valid() && Acks.Increasing(acks) && |acks| <= Acks.MAX_ACKS
    ensures BitLength(p, acks) <= 8 * (HEAD_BYTES + |Tail(p, acks)|)
    ensures ParseTail(Tail(p, acks), BitLength(p, acks)) ==
            if Readable(p, acks) then Received(Arriving(p, acks), acks) else Malformed
  {
    hide NumberBits, BytesBits, SiblingBits, ParseHeader, Tail, Packed.Decode, AlignedHeader, AfterNumbers, Misread,
         WritesFlag, BytesFor;
    TailBits(p, acks);
    HeaderParses(p, acks);
    PayloadStart(p, acks);
    FlagRead(p, acks);
    BitsInBytes(p.body);
    var a, t := |AlignedHeader(p, acks)|, Tail(p, acks);
    assert t[a / 8..a / 8 + |p.body.bytes|] == p.body.bytes;
    if Misread(p, acks) && p.body.nbits >= 8 {
      LessOneByte(p.body);
      assert t[a / 8 + 1..a / 8 + 1 + BytesFor(p.body.nbits - 8)] == p.body.bytes[1..];
    }
  }

  lemma LessOneByte(b: Body)
    requires b.nbits >= 8
    ensures BytesFor(b.nbits - 8) == |b.bytes| - 1
  {
  }

  lemma BitsInBytes(b: Body)
    ensures b.nbits <= 8 * |b.bytes| && BytesFor(b.nbits) == |b.bytes|
  {
  }

  lemma TailRoundTrip(p: Packet, acks: seq<u32>)
    requires p.Valid() && Acks.Increasing(acks) && |acks| <= Acks.MAX_ACKS
    ensures BitLength(p, acks) <= 8 * (HEAD_BYTES + |Tail(p, acks)|)
    ensures ParseTail(Tail(p, acks), BitLength(p, acks)) == Received(p.(reliable := true), acks)
            <==> Transparent(p, acks)
  {
    hide BitLength, Tail, ParseTail, Arriving, Readable, Transparent;
    TailParses(p, acks);
    ArrivingExactly(p, acks);
  }

  lemma FrontRoundTrip(v: nat)
    requires v < 0x1_0000_0000
    ensures LoadLE(StoreLE(v, 4)) == v
  {
    hide Pow2, StoreLE, LoadLE;
    LoadStoreLE(v, 4);
    Packed.Pow2Value32();
    ModUnique(v, 0x1_0000_0000, 0, v);
  }

  lemma LongEnough(p: Packet, acks: seq<u32>)
    requires Acks.Increasing(acks) && |acks| <= Acks.MAX_ACKS
    ensures |FrameBytes(p, acks)| >= SHORTEST_FRAME && |FrameBytes(p, acks)| % 8 == 4
    ensures 32 <= BitLength(p, acks)
  {
    hide SiblingBits, Acks.TableBits, Checksums.Value;
    assert |NumberBits(p, acks)| >= 1 + NUMBER_BITS;
  }

  /** What a receiver makes of every datagram: the packet, the packet without its first byte, or a failed assertion. */
  lemma FrameParses(p: Packet, acks: seq<u32>)
    requires p.Valid() && Acks.Increasing(acks) && |acks| <= Acks.MAX_ACKS
    requires BitLength(p, acks) < 0x1_0000_0000
    ensures Parse(FrameBytes(p, acks)) == if Readable(p, acks) then Received(Arriving(p, acks), acks) else Malformed
  {
    hide BitLength, Tail, Checksums.Value, ParseTail, StoreLE, LoadLE, Arriving, Readable;
    var frame, n := FrameBytes(p, acks), BitLength(p, acks);
    var t := Tail(p, acks);
    LongEnough(p, acks);
    TailParses(p, acks);
    FrontRoundTrip(n);
    FrontRoundTrip(Checksums.Value(t));
    assert frame[..4] == StoreLE(n, 4) && frame[4..8] == StoreLE(Checksums.Value(t), 4) && frame[8..] == t;
  }

  /**
   * The receiver undoes the sender: every field, the acks and the exact payload bits come back, whatever padding
   * follows, exactly when the payload does not start with the packed number 1, or it does, the flag that is then
   * missing was clear, and the numbers in front do not end on a byte boundary.
   */
  lemma RoundTrip(p: Packet, acks: seq<u32>)
    requires p.Valid() && Acks.Increasing(acks) && |acks| <= Acks.MAX_ACKS
    requires BitLength(p, acks) < 0x1_0000_0000
    ensures Parse(FrameBytes(p, acks)) == Received(p.(reliable := true), acks) <==> Transparent(p, acks)
  {
    hide Parse, FrameBytes, BitLength, Arriving, Readable, Transparent;
    FrameParses(p, acks);
    ArrivingExactly(p, acks);
  }
}
