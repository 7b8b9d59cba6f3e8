/** What is on the wire, written out: the packed code, the fragments and every bit of a datagram. */
module Layouts {
  import opened Bits
  import opened Packets
  import opened SiblingBodies
  import opened Endpoints
  import opened StringTables
  import opened PartNames
  import Packed = PackedCode
  import Acks
  import Checksums
  import Frames

  // ---- packed numbers that start with one bit ----

  /** One, three, seven, fifteen or thirty-one set bits, and what is left of the number in the next group. */
  function Code(v: u32): seq<bool> {
    if v == 0 then [false]
    else if v < 4 then [true] + ToBits(v - 1, 2)
    else if v < 19 then Packed.Ones(3) + ToBits(v - 4, 4)
    else if v < 274 then Packed.Ones(7) + ToBits(v - 19, 8)
    else if v < 65809 then Packed.Ones(15) + ToBits(v - 274, 16)
    else Packed.Ones(31) + ToBits(v - 65809, 32)
  }

  lemma Widths()
    ensures Packed.Mask(1) == 1 && Packed.Mask(2) == 3 && Packed.Mask(4) == 15 && Packed.Mask(8) == 255
    ensures Packed.Mask(16) == 65535
    ensures Packed.NextWidth(1) == 2 && Packed.NextWidth(2) == 4 && Packed.NextWidth(4) == 8
    ensures Packed.NextWidth(8) == 16 && Packed.NextWidth(16) == 32
  {
    assert Pow2(8) == 256;
    Pow2Add(8, 8);
  }

  /** The all-ones groups in front of width n are followed by one more, or by the last group. */
  lemma OneGroup(v: u32, n: nat, front: nat)
    requires 1 <= n < Packed.UINT32_BITS
    ensures v >= Packed.Mask(n) ==>
            Packed.Ones(front) + Packed.Encode(v, n)
                == Packed.Ones(front + n) + Packed.Encode(v - Packed.Mask(n), Packed.NextWidth(n))
    ensures v < Packed.Mask(n) ==> Packed.Encode(v, n) == ToBits(v, n)
  {
    hide Packed.Mask, ToBits, Packed.Ones;
    if v >= Packed.Mask(n) {
      OnesJoined(front, n);
      ConcatAssoc(Packed.Ones(front), Packed.Ones(n), Packed.Encode(v - Packed.Mask(n), Packed.NextWidth(n)));
    }
  }

  lemma OnesJoined(m: nat, n: nat)
    ensures Packed.Ones(m) + Packed.Ones(n) == Packed.Ones(m + n)
  {
  }

  lemma LongCode(v: u32)
    requires v >= 274
    ensures Packed.Ones(15) + Packed.Encode(v - 274, 16)
            == if v < 65809 then Packed.Ones(15) + ToBits(v - 274, 16) else Packed.Ones(31) + ToBits(v - 65809, 32)
  {
    hide Packed.Encode, Packed.Mask, Packed.NextWidth, Packed.Ones;
    Widths();
    OneGroup(v - 274, 16, 15);
    if v >= 65809 { LastGroup(v - 65809); }
  }

  lemma MiddleCode(v: u32)
    requires v >= 4
    ensures Packed.Ones(3) + Packed.Encode(v - 4, 4)
            == if v < 19 then Packed.Ones(3) + ToBits(v - 4, 4)
               else if v < 274 then Packed.Ones(7) + ToBits(v - 19, 8)
               else Packed.Ones(15) + Packed.Encode(v - 274, 16)
  {
    hide Packed.Encode, Packed.Mask, Packed.NextWidth, Packed.Ones;
    Widths();
    OneGroup(v - 4, 4, 3);
    if v >= 19 { OneGroup(v - 19, 8, 7); }
  }

  lemma ShortCode(v: u32)
    ensures Packed.Encode(v, 1)
            == if v == 0 then [false]
               else if v < 4 then [true] + ToBits(v - 1, 2)
               else Packed.Ones(3) + Packed.Encode(v - 4, 4)
  {
    hide Packed.Encode, Packed.Mask, Packed.NextWidth, Packed.Ones;
    Widths();
    FirstGroups(v);
    OneGroup(v, 1, 0);
    if v >= 1 { OneGroup(v - 1, 2, 1); }
  }

  lemma CodeIs(v: u32)
    ensures Packed.Encode(v, 1) == Code(v)
  {
    hide Packed.Encode, Packed.Ones, ToBits;
    ShortCode(v);
    if v >= 4 { MiddleCode(v); }
    if v >= 274 { LongCode(v); }
  }

  lemma LastGroup(v: u32)
    ensures Packed.Encode(v, 32) == ToBits(v, 32)
  {
  }

  lemma FirstGroups(v: u32)
    ensures ToBits(0, 1) == [false] && Packed.Ones(1) == [true]
    ensures Packed.Ones(0) + Packed.Encode(v, 1) == Packed.Encode(v, 1)
  {
  }

  // ---- packed numbers that start with twelve bits ----

  /** Twelve bits, or twelve set bits and the excess over 4095 in 24 bits or, after those set too, in 32. */
  function WideCode(v: u32): seq<bool> {
    if v < 4095 then ToBits(v, 12)
    else if v < 16781310 then Packed.Ones(12) + ToBits(v - 4095, 24)
    else Packed.Ones(36) + ToBits(v - 16781310, 32)
  }

  lemma WideWidths()
    ensures Packed.Mask(12) == 4095 && Packed.Mask(24) == 16777215
    ensures Packed.NextWidth(12) == 24 && Packed.NextWidth(24) == 32
  {
    assert Pow2(8) == 256 && Pow2(4) == 16;
    Pow2Add(8, 4);
    Pow2Add(12, 12);
  }

  lemma WideCodeIs(v: u32)
    ensures Packed.Encode(v, 12) == WideCode(v)
  {
    hide Packed.Encode, Packed.Mask, Packed.NextWidth, Packed.Ones;
    WideWidths();
    NoGroups(v, 12);
    OneGroup(v, 12, 0);
    if v >= 4095 { OneGroup(v - 4095, 24, 12); }
    if v >= 16781310 { LastGroup(v - 16781310); }
  }

  lemma NoGroups(v: u32, n: nat)
    requires 1 <= n <= Packed.UINT32_BITS
    ensures Packed.Ones(0) + Packed.Encode(v, n) == Packed.Encode(v, n)
  {
  }

  /** A part name sent as an index: the flag, and the index in this code. */
  lemma IndexLayout(h: Hashing, t: seq<Entry>, str: Str)
    requires t != [] && |t| <= LARGEST && (0 < |str| < LONG ==> Stops(h, t, str)) && !SentAsText(h, t, str)
    ensures CacheIdx(h, t, str) < 0x1_0000_0000
    ensures PartBits(h, t, str) == [true] + WideCode(CacheIdx(h, t, str))
  {
    hide Find, Stops, Packed.Encode, WideCode, CacheIdx;
    CacheBound(h, t, str);
    WideCodeIs(CacheIdx(h, t, str));
  }

  // ---- fragments ----

  lemma SplitFirst(b: Body)
    requires b.WholeBytes() > 0
    ensures b.WholeBytes() <= 1272 ==> Split(b) == [b]
    ensures b.WholeBytes() > 1272 ==>
            Split(b) == [Contents(b.bytes[..1272], 8 * 1272)] + Split(Contents(b.bytes[1272..], b.nbits - 8 * 1272))
  {
  }

  /** How many fragments there are: as many as blocks of 1272 bytes are needed for the whole bytes. */
  lemma {:induction false} SplitCount(b: Body)
    requires b.WholeBytes() > 0
    ensures |Split(b)| == (b.WholeBytes() + 1271) / 1272
    decreases b.nbits
  {
    hide Split;
    SplitFirst(b);
    if b.WholeBytes() > 1272 { SplitCount(Contents(b.bytes[1272..], b.nbits - 8 * 1272)); }
  }

  /** Fragment j of the bytes from a position on. */
  predicate FragmentAt(part: Body, b: Body, at: nat, last: bool) {
    if last then at <= |b.bytes| && 8 * at <= b.nbits && part == Contents(b.bytes[at..], b.nbits - 8 * at)
    else at + 1272 <= |b.bytes| && part == Contents(b.bytes[at..at + 1272], 8 * 1272)
  }

  lemma FragmentShifted(part: Body, b: Body, at: nat, last: bool)
    requires b.WholeBytes() > 1272 && FragmentAt(part, Contents(b.bytes[1272..], b.nbits - 8 * 1272), at, last)
    ensures FragmentAt(part, b, at + 1272, last)
  {
  }

  /** Every fragment but the last holds 1272 bytes; the last one holds the rest, a last partial byte included. */
  lemma {:induction false} SplitAt(b: Body, j: nat)
    requires b.WholeBytes() > 0 && j < |Split(b)|
    ensures FragmentAt(Split(b)[j], b, 1272 * j, j == |Split(b)| - 1)
    decreases b.nbits
  {
    hide Split;
    SplitFirst(b);
    if b.WholeBytes() > 1272 {
      var rest := Contents(b.bytes[1272..], b.nbits - 8 * 1272);
      SplitCount(rest);
      if j > 0 {
        hide FragmentAt;
        SplitAt(rest, j - 1);
        FragmentShifted(Split(rest)[j - 1], b, 1272 * (j - 1), j == |Split(b)| - 1);
      }
    }
  }

  /** A merged packet has the number, sibling fields and flags of its first part; only the body is that of all parts. */
  lemma MergedHeader(s: Storage)
    requires s != [] && AllAvailable(s)
    ensures var m, p := MergedPacket(s), s[0].value;
            m == Packet(p.seqNo, p.numSibs, p.sibId, p.sibPos, p.reliable, p.compressed, Merge(Bodies(s)))
  {
  }

  /** A payload is split from 1272 whole bytes on. */
  lemma LargeFrom(b: Body)
    ensures IsLarge(b) <==> b.nbits >= 8 * 1272
  {
  }

  /** The queue takes 16384 packets; each gets the next number. */
  lemma QueueTakes(e: Endpoint, p: Packet)
    ensures var e' := AddToSendQueue(e, p);
            if |e.sendQueue| < 16384
            then
              && e'.sendSeq == (e.sendSeq + 1) % 0x1_0000_0000
              && e' == e.(sendSeq := e'.sendSeq, sendQueue := e.sendQueue + [p.(seqNo := e'.sendSeq)])
            else e' == e
  {
  }

  // ---- a datagram ----

  /** The acks of a table from the second one on, by their distances. */
  function Distances(acks: seq<u32>, n: nat): seq<bool>
    requires Acks.Increasing(acks) && n < |acks|
  {
    if n == 0 then [] else Distances(acks, n - 1) + Code(acks[n] - acks[n - 1] - 1)
  }

  function AckTable(acks: seq<u32>): seq<bool>
    requires Acks.Increasing(acks) && |acks| <= Acks.MAX_ACKS
  {
    Code(|acks|) + if acks == [] then [] else ToBits(acks[0], 32) + Distances(acks, |acks| - 1)
  }

  lemma FromHere(acks: seq<u32>, i: nat)
    requires Acks.Increasing(acks) && i < |acks|
    ensures Acks.Increasing([acks[i]] + acks[i + 1..])
    ensures i + 1 < |acks| ==>
            acks[i] < acks[i + 1] && acks[i + 1..][0] == acks[i + 1] && acks[i + 1..][1..] == acks[i + 2..]
  {
    assert [acks[i]] + acks[i + 1..] == acks[i..];
  }

  lemma {:induction false} DistancesFrom(acks: seq<u32>, i: nat)
    requires Acks.Increasing(acks) && i < |acks| && Acks.Increasing([acks[i]] + acks[i + 1..])
    ensures Distances(acks, i) + Acks.DeltaBits(acks[i], acks[i + 1..]) == Distances(acks, |acks| - 1)
    decreases |acks| - i
  {
    hide Code, Packed.Encode, Acks.Increasing;
    FromHere(acks, i);
    if i + 1 < |acks| {
      FromHere(acks, i + 1);
      DistancesFrom(acks, i + 1);
      var v := acks[i + 1] - acks[i] - 1;
      CodeIs(v);
      ConcatAssoc(Distances(acks, i), Code(v), Acks.DeltaBits(acks[i + 1], acks[i + 2..]));
    }
  }

  lemma TableIs(acks: seq<u32>)
    requires Acks.Increasing(acks) && |acks| <= Acks.MAX_ACKS
    ensures Acks.TableBits(acks) == AckTable(acks)
  {
    hide Code, Packed.Encode, Acks.DeltaBits, ToBits;
    CodeIs(|acks|);
    if acks != [] {
      FromHere(acks, 0);
      DistancesFrom(acks, 0);
      var d := Acks.DeltaBits(acks[0], acks[1..]);
      assert Distances(acks, 0) + d == d;
      ConcatAssoc(Code(|acks|), ToBits(acks[0], 32), d);
    }
  }

  /** Debug flag, sequence number, siblings, acks, compressed flag. */
  function Header(p: Packet, acks: seq<u32>): seq<bool>
    requires Acks.Increasing(acks) && |acks| <= Acks.MAX_ACKS
  {
    [false] + ToBits(p.seqNo, 32)
    + (if p.numSibs == 0 then [false] else Code(p.numSibs) + Code(p.sibPos) + ToBits(p.sibId, 32))
    + AckTable(acks)
    + if p.sibId == 0 && Packed.Decode(p.body.Bits(), 1, 0).value == 1 then [] else [p.compressed]
  }

  lemma HeaderIs(p: Packet, acks: seq<u32>)
    requires Acks.Increasing(acks) && |acks| <= Acks.MAX_ACKS
    ensures Frames.HeaderBits(p, acks) == Header(p, acks)
  {
    hide Packed.Encode, Packed.Decode, Acks.TableBits, AckTable, ToBits, BytesBits;
    CodeIs(p.numSibs);
    CodeIs(p.sibPos);
    TableIs(acks);
  }

  function ToBoundary(n: nat): nat {
    (8 - n % 8) % 8
  }

  /** The bytes of a datagram up to the end of its payload. */
  function FilledBytes(p: Packet, acks: seq<u32>): nat
    requires Acks.Increasing(acks) && |acks| <= Acks.MAX_ACKS
  {
    8 + BytesFor(|Header(p, acks)|) + |p.body.bytes|
  }

  /** Zero bits up to the next length of 4 modulo 8 in bytes. */
  function Filler(n: nat): seq<bool> {
    Zeros(8 * (Frames.PaddedLength(n) - n))
  }

  function TailOf(p: Packet, acks: seq<u32>): seq<bool>
    requires Acks.Increasing(acks) && |acks| <= Acks.MAX_ACKS
  {
    var h := Header(p, acks);
    h + Zeros(ToBoundary(|h|)) + BytesBits(p.body.bytes) + Filler(FilledBytes(p, acks))
  }

  /** Bit length, checksum, header, zeros up to a byte, payload and zeros up to the length of the datagram. */
  function Datagram(p: Packet, acks: seq<u32>, sum: u32): seq<bool>
    requires Acks.Increasing(acks) && |acks| <= Acks.MAX_ACKS
  {
    ToBits(64 + 8 * BytesFor(|Header(p, acks)|) + p.body.nbits, 32) + ToBits(sum, 32) + TailOf(p, acks)
  }

  lemma {:induction false} ZeroBits(n: nat)
    ensures BytesBits(Frames.ZeroBytes(n)) == Zeros(8 * n)
  {
    if n > 0 {
      assert Frames.ZeroBytes(n)[1..] == Frames.ZeroBytes(n - 1);
      ZeroBits(n - 1);
      ToBitsZero(8);
    }
  }

  lemma ToBytes(n: nat)
    ensures n + ToBoundary(n) == 8 * BytesFor(n)
  {
  }

  lemma TailLayout(p: Packet, acks: seq<u32>)
    requires Acks.Increasing(acks) && |acks| <= Acks.MAX_ACKS
    ensures |Frames.AlignedHeader(p, acks)| == 8 * BytesFor(|Header(p, acks)|)
    ensures BytesBits(Frames.Tail(p, acks)) == TailOf(p, acks)
  {
    hide Header, BytesBits, BytesFor, ToBoundary, Frames.HeaderBits, Frames.PaddedLength, PackBytes;
    HeaderIs(p, acks);
    var h := Header(p, acks);
    ToBytes(|h|);
    Boundary(|h|);
    var a := Frames.AlignedHeader(p, acks);
    var packed := PackBytes(a);
    PackBytesBits(a);
    var n := FilledBytes(p, acks);
    BytesBitsConcat(packed, p.body.bytes);
    BytesBitsConcat(packed + p.body.bytes, Frames.ZeroBytes(Frames.PaddedLength(n) - n));
    ZeroBits(Frames.PaddedLength(n) - n);
  }

  lemma Boundary(n: nat)
    ensures Pad(n) == Zeros(ToBoundary(n))
  {
  }

  /** Every bit of a datagram, in order. */
  lemma DatagramLayout(p: Packet, acks: seq<u32>)
    requires Acks.Increasing(acks) && |acks| <= Acks.MAX_ACKS
    ensures var f := Frames.FrameBytes(p, acks);
            |f| >= 8 && |f| % 8 == 4 && BytesBits(f) == Datagram(p, acks, Checksums.Value(f[8..]))
  {
    hide TailOf, Header, BytesBits, BytesFor, Frames.AlignedHeader, Frames.Tail, StoreLE, ToBits, Checksums.Value;
    TailLayout(p, acks);
    Frames.LongEnough(p, acks);
    var f, t := Frames.FrameBytes(p, acks), Frames.Tail(p, acks);
    var n, sum := Frames.BitLength(p, acks), Checksums.Value(t);
    StoreLEBits(n, 4);
    StoreLEBits(sum, 4);
    assert f[8..] == t;
    BytesBitsConcat(StoreLE(n, 4), StoreLE(sum, 4));
    BytesBitsConcat(StoreLE(n, 4) + StoreLE(sum, 4), t);
  }
}
