/** The datagram as the stream operations write and read it, field by field. */
module FrameStreams {
  import opened Bits
  import opened Options
  import opened Packets
  import opened BitStreams
  import Packed = PackedCode
  import Acks
  import Checksums
  import Damages
  import opened Frames
  import opened Endpoints

  /** No ack table is longer than this many bits, with room for the check each store makes. */
  const TABLE_ROOM: nat := 2096

  // ---- writing ----

  method PutNumber(bs: BitStream, v: u32)
    requires bs.Roomy(96)
    modifies bs, bs.buf
    ensures bs.Valid() && bs.ReaderKept() && (bs.buf == old(bs.buf) || fresh(bs.buf)) && bs.size >= 8
    ensures bs.Written() == old(bs.Written()) + ToBits(v, NUMBER_BITS)
    ensures old(bs.TailClear()) ==> bs.TailClear()
  {
    hide BytesBits, ToBits, Pow2;
    Packed.Pow2Value32();
    bs.StoreBits(32, v);
  }

  method PutFlag(bs: BitStream, flag: bool)
    requires bs.Roomy(96)
    modifies bs, bs.buf
    ensures bs.Valid() && bs.ReaderKept() && (bs.buf == old(bs.buf) || fresh(bs.buf)) && bs.size >= 8
    ensures bs.Written() == old(bs.Written()) + [flag]
    ensures old(bs.TailClear()) ==> bs.TailClear()
  {
    hide BytesBits;
    var one: u32 := if flag then 1 else 0;
    FlagBits(flag);
    bs.StoreBits(1, one);
  }

  lemma FlagBits(flag: bool)
    ensures ToBits(if flag then 1 else 0, 1) == [flag] && Pow2(1) == 2
  {
    assert Pow2(0) == 1 && ToBits(0, 0) == [];
  }

  /** Writes the table for the smallest acks of a sorted list and says how many it took. */
  method StoreAckTable(bs: BitStream, all: seq<u32>) returns (taken: nat)
    requires Acks.Increasing(all) && bs.Roomy(TABLE_ROOM)
    modifies bs, bs.buf
    ensures taken == if |all| < Acks.MAX_ACKS then |all| else Acks.MAX_ACKS
    ensures bs.Valid() && bs.ReaderKept() && (bs.buf == old(bs.buf) || fresh(bs.buf)) && bs.size >= 8
    ensures bs.Written() == old(bs.Written()) + Acks.TableBits(all[..taken])
    ensures old(bs.TailClear()) ==> bs.TailClear()
  {
    hide BytesBits, ToBits, Pow2, Packed.Encode, Acks.DeltaBits;
    if all == [] {
      bs.StorePackedBits(1, 0);
      return 0;
    }
    var n := if |all| < Acks.MAX_ACKS then |all| else Acks.MAX_ACKS;
    ghost var before := bs.Written();
    Packed.CodeLength(n, 1);
    assert [all[..n][0]] + all[..n][1..] == all[..n] && all[..n][1..] == all[1..n];
    bs.StorePackedBits(1, n);
    PutNumber(bs, all[0]);
    FourParts(before, Packed.Encode(n, 1), ToBits(all[0], NUMBER_BITS), Acks.DeltaBits(all[0], all[1..n]));
    taken := StoreDeltas(bs, all, n);
  }

  lemma FourParts<T>(a: seq<T>, b: seq<T>, c: seq<T>, d: seq<T>)
    ensures a + b + c + d == a + (b + c + d)
  {
  }

  /** The distances of the acks after the first, until the count is used up or the list ends. */
  method StoreDeltas(bs: BitStream, all: seq<u32>, count: nat) returns (taken: nat)
    requires Acks.Increasing(all) && bs.Roomy(TABLE_ROOM - 190)
    requires 1 <= count <= Acks.MAX_ACKS && count <= |all| && (count == 1 ==> |all| == 1)
    requires Acks.Increasing([all[0]] + all[1..count])
    modifies bs, bs.buf
    ensures taken == count
    ensures bs.Valid() && bs.ReaderKept() && (bs.buf == old(bs.buf) || fresh(bs.buf)) && bs.size >= 8
    ensures bs.Written() == old(bs.Written()) + Acks.DeltaBits(all[0], all[1..count])
    ensures old(bs.TailClear()) ==> bs.TailClear()
  {
    hide BytesBits, ToBits, Pow2, Packed.Encode, Acks.DeltaBits, Acks.Increasing;
    var last, i, n := all[0], 1, count - 1;
    ghost var sent, before, whole := all[..count], bs.Written(), Acks.DeltaBits(all[0], all[1..count]);
    assert sent[1..] == all[1..count];
    Acks.DeltaLength(last, sent[1..]);
    while i < |all|
      invariant 1 <= i <= count && n == count - i && (i < |all| ==> n > 0)
      invariant last == sent[i - 1] && Acks.Increasing([last] + sent[i..])
      invariant bs.Valid() && bs.ReaderKept() && (bs.buf == old(bs.buf) || fresh(bs.buf)) && bs.size >= 8
      invariant bs.Written() + Acks.DeltaBits(last, sent[i..]) == before + whole
      invariant old(bs.TailClear()) ==> bs.TailClear()
      decreases |all| - i
    {
      ghost var soFar := bs.Written();
      TableStep(last, sent, i);
      bs.StorePackedBits(1, all[i] - last - 1);
      ConcatAssoc(soFar, Packed.Encode(all[i] - last - 1, 1), Acks.DeltaBits(all[i], sent[i + 1..]));
      last := all[i];
      i := i + 1;
      n := n - 1;
      if n == 0 {
        break;
      }
    }
    TableEnd(last, sent[i..]);
    taken := i;
  }

  lemma TableStep(last: u32, sent: seq<u32>, i: nat)
    requires i < |sent| && Acks.Increasing([last] + sent[i..])
    ensures Acks.Increasing([sent[i]] + sent[i + 1..]) && last < sent[i]
    ensures Acks.DeltaBits(last, sent[i..])
            == Packed.Encode(sent[i] - last - 1, 1) + Acks.DeltaBits(sent[i], sent[i + 1..])
  {
    var rest := sent[i..];
    Acks.TailIncreasing(last, rest);
    assert rest[0] == sent[i] && rest[1..] == sent[i + 1..];
  }

  lemma TableEnd(last: u32, rest: seq<u32>)
    requires Acks.Increasing([last] + rest) && rest == []
    ensures Acks.DeltaBits(last, rest) == []
  {
  }

  /** The place holders, the debug flag, the sequence number and the siblings. */
  method StoreNumbers(strm: BitStream, p: Packet)
    requires strm.Roomy(1000) && strm.WritePos() == 0 && strm.size >= 64
    modifies strm, strm.buf
    ensures strm.Valid() && strm.ReaderKept() && (strm.buf == old(strm.buf) || fresh(strm.buf)) && strm.size >= 8
    ensures strm.Written() == BytesBits(ZeroBytes(HEAD_BYTES)) + [false] + ToBits(p.seqNo, NUMBER_BITS) + SiblingBits(p)
    ensures old(strm.TailClear()) ==> strm.TailClear()
  {
    hide BytesBits, ToBits, Pow2, Packed.Encode;
    PutHolders(strm);
    PutFlag(strm, false);
    PutNumber(strm, p.seqNo);
    ghost var front := strm.Written();
    Packed.CodeLength(p.numSibs, 1);
    Packed.CodeLength(p.sibPos, 1);
    strm.StorePackedBits(1, p.numSibs);
    if p.HasSiblings() {
      strm.StorePackedBits(1, p.sibPos);
      PutNumber(strm, p.sibId);
      SiblingParts(front, p);
    } else {
      assert SiblingBits(p) == Packed.Encode(p.numSibs, 1);
    }
  }

  lemma SiblingParts(front: seq<bool>, p: Packet)
    requires p.HasSiblings()
    ensures front + Packed.Encode(p.numSibs, 1) + Packed.Encode(p.sibPos, 1) + ToBits(p.sibId, NUMBER_BITS)
            == front + SiblingBits(p)
  {
    hide Packed.Encode, ToBits;
  }

  method PutHolders(strm: BitStream)
    requires strm.Roomy(1000) && strm.WritePos() == 0 && strm.size >= 64
    modifies strm, strm.buf
    ensures strm.Valid() && strm.ReaderKept() && (strm.buf == old(strm.buf) || fresh(strm.buf)) && strm.size >= 8
    ensures strm.Written() == BytesBits(ZeroBytes(HEAD_BYTES))
    ensures old(strm.TailClear()) ==> strm.TailClear()
  {
    hide BytesBits, StoreLE;
    strm.PutInt(0, 4);
    strm.PutInt(0, 4);
    assert strm.Stored() == ZeroBytes(HEAD_BYTES) by {
      HolderBytes();
    }
    BytesBitsCut(strm.buf[..], strm.writeOff);
    assert strm.buf[..][..strm.writeOff] == strm.Stored();
  }

  lemma HolderBytes()
    ensures [] + StoreLE(0, 4) + StoreLE(0, 4) == ZeroBytes(HEAD_BYTES)
  {
    assert StoreLE(0, 0) == [];
    assert StoreLE(0, 1) == [0];
    assert StoreLE(0, 2) == [0, 0];
    assert StoreLE(0, 3) == [0, 0, 0];
  }

  /** No header is longer than this. */
  const HEADER_ROOM: nat := 2300

  lemma HeaderLength(p: Packet, acks: seq<u32>)
    requires Acks.Increasing(acks) && |acks| <= Acks.MAX_ACKS
    ensures |NumberBits(p, acks)| <= 2255 && |SiblingBits(p)| <= 222 && |AlignedHeader(p, acks)| <= HEADER_ROOM
  {
    hide Packed.Encode, ToBits, Acks.TableBits;
    Acks.TableLength(acks);
    Packed.CodeLength(p.numSibs, 1);
    Packed.CodeLength(p.sibPos, 1);
  }

  /** Aligns the header and copies the payload behind it. */
  method StoreBody(strm: BitStream, body: Body, ghost header: seq<bool>)
    requires |header| <= HEADER_ROOM && |body.bytes| <= LARGEST_BODY
    requires strm.Valid() && strm.TailClear() && strm.ReadPos() == 0 && strm.maxSize == NO_LIMIT && strm.size >= 8
    requires strm.Written() == BytesBits(ZeroBytes(HEAD_BYTES)) + header
    modifies strm, strm.buf
    ensures strm.Valid() && strm.ReaderKept() && (strm.buf == old(strm.buf) || fresh(strm.buf)) && strm.size >= 8
    ensures strm.WritePos() == 8 * HEAD_BYTES + |header + Pad(|header|)| + body.nbits
    ensures strm.Stored() == ZeroBytes(HEAD_BYTES) + PackBytes(header + Pad(|header|)) + body.bytes
  {
    AlignHeader(strm, header);
    strm.StoreBitArray(body.bytes, body.nbits);
  }

  method AlignHeader(strm: BitStream, ghost header: seq<bool>)
    requires strm.Valid() && strm.TailClear() && strm.ReadPos() == 0
    requires strm.Written() == BytesBits(ZeroBytes(HEAD_BYTES)) + header
    modifies strm`writeOff, strm`writeBit, strm`readOff, strm`readBit
    ensures strm.Valid() && strm.ReadPos() == 0 && strm.writeBit == 0
    ensures strm.WritePos() == 8 * HEAD_BYTES + |header + Pad(|header|)|
    ensures strm.Stored() == ZeroBytes(HEAD_BYTES) + PackBytes(header + Pad(|header|))
  {
    hide BytesBits, PackBytes;
    strm.ByteAlign(true, true);
    ZerosArePad(|header|, strm.WritePos() - (8 * HEAD_BYTES + |header|));
    ConcatAssoc(BytesBits(ZeroBytes(HEAD_BYTES)), header, Pad(|header|));
    StoredIs(strm, ZeroBytes(HEAD_BYTES), header + Pad(|header|));
  }

  lemma ZerosArePad(n: nat, k: nat)
    requires k < 8 && (n + k) % 8 == 0
    ensures Zeros(k) == Pad(n)
  {
    assert |Zeros(k)| == |Pad(n)|;
  }

  /** The bytes of a stream that ends on a byte boundary. */
  lemma StoredIs(strm: BitStream, front: seq<byte>, a: seq<bool>)
    requires strm.Valid() && strm.writeBit == 0 && |a| % 8 == 0 && strm.Written() == BytesBits(front) + a
    ensures strm.Stored() == front + PackBytes(a)
  {
    hide BytesBits, PackBytes;
    BytesBitsCut(strm.buf[..], strm.writeOff);
    assert strm.buf[..][..strm.writeOff] == strm.Stored();
    PackBytesBits(a);
    BytesBitsConcat(front, PackBytes(a));
    BytesBitsInjective(strm.Stored(), front + PackBytes(a));
  }

  /** Fills in the bit length, pads the datagram and fills in the checksum. */
  method SealFrame(strm: BitStream, ghost content: seq<byte>)
    requires strm.Valid() && strm.ReadPos() == 0 && strm.maxSize == NO_LIMIT && strm.size >= 8
    requires |content| <= LARGEST_BODY + 390 && strm.Stored() == ZeroBytes(HEAD_BYTES) + content
    modifies strm, strm.buf
    ensures strm.Valid() && (strm.buf == old(strm.buf) || fresh(strm.buf)) && strm.writeBit == 0
    ensures var n := HEAD_BYTES + |content|;
            var tail := content + ZeroBytes(PaddedLength(n) - n);
            strm.Stored() == StoreLE(old(strm.WritePos()), 4) + StoreLE(Checksums.Value(tail), 4) + tail
  {
    hide StoreLE, Checksums.Value;
    ghost var length, n := strm.WritePos(), HEAD_BYTES + |content|;
    FillLength(strm, content);
    ghost var front := StoreLE(length, 4) + ZeroBytes(4);
    PadFrame(strm, front + content);
    ghost var tail := content + ZeroBytes(PaddedLength(n) - n);
    assert strm.Stored() == front + tail;
    FillChecksum(strm, StoreLE(length, 4), tail);
  }

  method FillLength(strm: BitStream, ghost content: seq<byte>)
    requires strm.Valid() && strm.ReadPos() == 0 && strm.WritePos() < 0x1_0000_0000
    requires strm.Stored() == ZeroBytes(HEAD_BYTES) + content
    modifies strm`writeOff, strm`writeBit, strm`readOff, strm`readBit, strm.buf
    ensures strm.Valid() && strm.ReadPos() == 0 && strm.writeBit == 0
    ensures strm.Stored() == StoreLE(old(strm.WritePos()), 4) + ZeroBytes(4) + content
  {
    hide BytesBits, StoreLE;
    var length := strm.ReadableBits();
    strm.Patch32(0, length);
    strm.ByteAlign(true, true);
  }

  method FillChecksum(strm: BitStream, ghost front: seq<byte>, ghost tail: seq<byte>)
    requires strm.Valid() && strm.writeBit == 0 && |front| == 4 && |tail| < 0x1_0000_0000
    requires strm.Stored() == front + ZeroBytes(4) + tail
    modifies strm.buf
    ensures strm.Valid() && strm.Stored() == front + StoreLE(Checksums.Value(tail), 4) + tail
  {
    hide StoreLE, Checksums.Value;
    assert strm.buf[HEAD_BYTES..strm.writeOff] == strm.Stored()[HEAD_BYTES..] == tail;
    var sum := Checksums.Checksum(strm.buf[HEAD_BYTES..strm.writeOff]);
    strm.Patch32(4, sum);
  }

  /** Appends zero bytes up to the padded length. */
  method PadFrame(strm: BitStream, ghost bytes: seq<byte>)
    requires strm.Valid() && strm.ReadPos() == 0 && strm.maxSize == NO_LIMIT && strm.size >= 8 && strm.writeBit == 0
    requires strm.Stored() == bytes && 8 <= |bytes| <= LARGEST_BODY + 400
    modifies strm, strm.buf
    ensures strm.Valid() && strm.ReaderKept() && (strm.buf == old(strm.buf) || fresh(strm.buf)) && strm.writeBit == 0
    ensures strm.Stored() == bytes + ZeroBytes(PaddedLength(|bytes|) - |bytes|)
  {
    hide BytesBits;
    var fixedLen := PaddedLength(strm.ReadableBytes());
    OneZero();
    while strm.ReadableBytes() < fixedLen
      invariant strm.Valid() && strm.ReaderKept() && (strm.buf == old(strm.buf) || fresh(strm.buf))
      invariant strm.writeBit == 0 && strm.size >= 8 && |bytes| <= strm.ReadableBytes() <= fixedLen
      invariant strm.Stored() == bytes + ZeroBytes(strm.ReadableBytes() - |bytes|)
      decreases fixedLen - strm.ReadableBytes()
    {
      strm.PutInt(0, 1);
    }
  }

  lemma OneZero()
    ensures StoreLE(0, 1) == [0]
  {
    assert StoreLE(0, 0) == [];
  }

  // ---- reading ----

  method NextPacked(src: BitStream) returns (r: u32)
    requires src.Valid() && !src.byteAligned
    modifies src`readOff, src`readBit, src`lastErr
    ensures src.Valid() && src.ReadPos() + |src.Unread()| == src.WritePos()
    ensures var d := Packed.Decode(old(src.Unread()), 1, 0);
            r == d.value && d.consumed <= |old(src.Unread())| && src.Unread() == old(src.Unread())[d.consumed..]
  {
    hide BytesBits, Packed.Decode;
    r := src.GetPackedBits(1);
  }

  method NextNumber(src: BitStream) returns (r: u32)
    requires src.Valid() && !src.byteAligned && |src.Unread()| >= NUMBER_BITS
    modifies src`readOff, src`readBit
    ensures src.Valid() && src.ReadPos() + |src.Unread()| == src.WritePos()
    ensures r == NumberAt(old(src.Unread()), 0) && src.Unread() == old(src.Unread())[NUMBER_BITS..]
  {
    hide BytesBits, FromBits;
    r := src.UGetBits(32);
  }

  /** The checked read: a truncated stream yields -1 and stays where it is. */
  method NextChecked(src: BitStream, n: nat) returns (r: u32)
    requires src.Valid() && !src.byteAligned && 1 <= n <= 32
    modifies src`readOff, src`readBit, src`lastErr
    ensures src.Valid() && src.ReadPos() + |src.Unread()| == src.WritePos()
    ensures var u := old(src.Unread());
            if n <= |u| then r == FromBits(u[..n]) && src.Unread() == u[n..]
                else r == Packed.MINUS_ONE && src.Unread() == u
  {
    hide BytesBits, FromBits;
    r := src.GetBits(n);
  }

  lemma NumberLater(u: seq<bool>, k: nat)
    requires k + NUMBER_BITS <= |u|
    ensures NumberAt(u[k..], 0) == NumberAt(u, k)
  {
    hide FromBits;
    assert u[k..][0..NUMBER_BITS] == u[k..k + NUMBER_BITS];
  }

  method ParseSiblingFields(src: BitStream) returns (s: Siblings)
    requires src.Valid() && !src.byteAligned && ParseSiblings(src.Unread()).Some?
    modifies src`readOff, src`readBit, src`lastErr
    ensures src.Valid() && src.ReadPos() + |src.Unread()| == src.WritePos()
    ensures Some(s) == ParseSiblings(old(src.Unread())) && src.Unread() == old(src.Unread())[s.consumed..]
  {
    hide BytesBits, FromBits, Packed.Decode, NumberAt;
    var from := src.ReadPos();
    ghost var u := src.Unread();
    var count := NextPacked(src);
    if count == 0 {
      return Siblings(0, 0, 0, src.ReadPos() - from);
    }
    var pos := NextPacked(src);
    ghost var k := src.ReadPos() - from;
    assert src.Unread() == u[k..];
    var id := NextNumber(src);
    NumberLater(u, k);
    assert src.Unread() == u[k + NUMBER_BITS..];
    return Siblings(count, pos, id, src.ReadPos() - from);
  }

  /** The ids given to addAck, in order. */
  method ParseAckTable(src: BitStream) returns (acks: seq<u32>)
    requires src.Valid() && !src.byteAligned
    modifies src`readOff, src`readBit, src`lastErr
    ensures src.Valid() && src.ReadPos() + |src.Unread()| == src.WritePos()
    ensures var t := Acks.ParseTable(old(src.Unread()));
            acks == t.acks && src.Unread() == old(src.Unread())[t.consumed..]
  {
    hide BytesBits, FromBits, Packed.Decode, Acks.ParseDeltas, Acks.ParseTable;
    ghost var u := src.Unread();
    TableForm(u);
    var numUniqueAcks := NextPacked(src);
    if numUniqueAcks == 0 {
      return [];
    }
    var firstAck := NextChecked(src, 32);
    acks := ParseDeltaList(src, firstAck, numUniqueAcks - 1);
    acks := [firstAck] + acks;
  }

  lemma TableForm(u: seq<bool>)
    ensures var n, t := Packed.Decode(u, 1, 0), Acks.ParseTable(u);
            if n.value == 0 then t == Acks.ParsedAcks([], n.consumed)
            else
              var v := u[n.consumed..];
              var first: u32, used: nat := if |v| < 32 then Packed.MINUS_ONE else Packed.ReadGroup(v, 32).value,
                  if |v| < 32 then 0 else 32;
              var r := Acks.ParseDeltas(v[used..], first, n.value - 1);
              && (|v| >= 32 ==> first == FromBits(v[..32]))
              && t.acks == [first] + r.acks && u[t.consumed..] == v[used..][r.consumed..]
  {
    hide Packed.Decode, FromBits, Acks.ParseDeltas;
    var n := Packed.Decode(u, 1, 0);
    var v := u[n.consumed..];
    assert forall k: nat :: k <= |v| ==> u[n.consumed + k..] == v[k..];
  }

  method ParseDeltaList(src: BitStream, first: u32, n: nat) returns (acks: seq<u32>)
    requires src.Valid() && !src.byteAligned
    modifies src`readOff, src`readBit, src`lastErr
    ensures src.Valid() && src.ReadPos() + |src.Unread()| == src.WritePos()
    ensures var t := Acks.ParseDeltas(old(src.Unread()), first, n);
            acks == t.acks && src.Unread() == old(src.Unread())[t.consumed..]
  {
    hide BytesBits, Packed.Decode, Acks.ParseDeltas, Prepended, Wrap32;
    ghost var u, used: nat := src.Unread(), 0;
    ghost var whole := Acks.ParseDeltas(u, first, n);
    NonePrepended(u, whole);
    acks := [];
    var last: u32 := first;
    for i := 0 to n
      invariant src.Valid() && used <= |u| && src.Unread() == u[used..]
      invariant whole == Prepended(acks, used, Acks.ParseDeltas(u[used..], last, n - i))
    {
      DeltaStep(acks, used, u, last, n - i);
      used := used + Packed.Decode(u[used..], 1, 0).consumed;
      var d: nat := NextPacked(src);
      last := Wrap32(last + Wrap32(d + 1));
      acks := acks + [last];
    }
    NoneLeft(acks, used, u, last);
  }

  function Prepended(acks: seq<u32>, used: nat, rest: Acks.ParsedAcks): Acks.ParsedAcks {
    Acks.ParsedAcks(acks + rest.acks, used + rest.consumed)
  }

  lemma NonePrepended(u: seq<bool>, t: Acks.ParsedAcks)
    ensures u[0..] == u && Prepended([], 0, t) == t
  {
  }

  lemma NoneLeft(acks: seq<u32>, used: nat, u: seq<bool>, last: u32)
    requires used <= |u|
    ensures Prepended(acks, used, Acks.ParseDeltas(u[used..], last, 0)) == Acks.ParsedAcks(acks, used)
  {
  }

  lemma DeltaStep(acks: seq<u32>, used: nat, u: seq<bool>, last: u32, n: nat)
    requires n > 0 && used <= |u|
    ensures var d := Packed.Decode(u[used..], 1, 0);
            var next := Wrap32(last + Wrap32(d.value + 1));
            && used + d.consumed <= |u| && u[used..][d.consumed..] == u[used + d.consumed..]
            && Prepended(acks, used, Acks.ParseDeltas(u[used..], last, n)) ==
               Prepended(acks + [next], used + d.consumed, Acks.ParseDeltas(u[used + d.consumed..], next, n - 1))
  {
    hide Packed.Decode, Wrap32;
  }

  lemma OneBit(b: bool)
    ensures FromBits([b]) == if b then 1 else 0
  {
    assert FromBits([]) == 0;
  }

  /** The debug flag, which must be clear, and the sequence number. */
  method ReadNumber(src: BitStream) returns (seqNo: u32)
    requires src.Valid() && !src.byteAligned && |src.Unread()| >= 1 + NUMBER_BITS && !src.Unread()[0]
    modifies src`readOff, src`readBit, src`lastErr
    ensures src.Valid() && src.ReadPos() + |src.Unread()| == src.WritePos()
    ensures seqNo == NumberAt(old(src.Unread()), 1) && src.Unread() == old(src.Unread())[1 + NUMBER_BITS..]
  {
    hide BytesBits, FromBits, NumberAt;
    ghost var u := src.Unread();
    NumberLater(u, 1);
    var debugMode := ReadFlag(src);
    assert !debugMode;
    seqNo := NextNumber(src);
  }

  /** Siblings, acks and the compressed flag. */
  method ReadRest(src: BitStream) returns (s: Siblings, acks: seq<u32>, compressed: bool)
    requires src.Valid() && !src.byteAligned && ParseSiblings(src.Unread()).Some?
    modifies src`readOff, src`readBit, src`lastErr
    ensures src.Valid() && src.ReadPos() + |src.Unread()| == src.WritePos()
    ensures Some(s) == ParseSiblings(old(src.Unread()))
    ensures var t := Acks.ParseTable(old(src.Unread())[s.consumed..]);
            var after := old(src.Unread())[s.consumed..][t.consumed..];
            && acks == t.acks && compressed == (after == [] || after[0])
            && |src.Unread()| == |after| - (if after == [] then 0 else 1)
  {
    hide BytesBits, ParseSiblings, Acks.ParseTable;
    s := ParseSiblingFields(src);
    acks := ParseAckTable(src);
    compressed := ReadFlag(src);
  }

  /** Debug flag, number, siblings, acks and the compressed flag. */
  method ReadHeader(src: BitStream) returns (h: Header)
    requires src.Valid() && !src.byteAligned && ParseHeader(src.Unread()).Some?
    modifies src`readOff, src`readBit, src`lastErr
    ensures src.Valid() && Some(h) == ParseHeader(old(src.Unread()))
    ensures src.ReadPos() == old(src.ReadPos()) + h.length
  {
    hide BytesBits, FromBits, ParseSiblings, NumberAt, Acks.ParseTable, ParseHeader;
    var from := src.ReadPos();
    HeaderForm(src.Unread());
    assert from + |src.Unread()| == src.WritePos();
    hide *;
    var seqNo := ReadNumber(src);
    var s, acks, compressed := ReadRest(src);
    h := Header(seqNo, s, acks, compressed, src.ReadPos() - from);
  }

  lemma HeaderForm(u: seq<bool>)
    requires ParseHeader(u).Some?
    ensures |u| >= 1 + NUMBER_BITS && !u[0] && ParseSiblings(u[1 + NUMBER_BITS..]).Some?
    ensures var rest, h := u[1 + NUMBER_BITS..], ParseHeader(u).value;
            var s := ParseSiblings(rest).value;
            var t := Acks.ParseTable(rest[s.consumed..]);
            var after := rest[s.consumed..][t.consumed..];
            && h == Header(NumberAt(u, 1), s, t.acks, after == [] || after[0], h.length)
            && h.length == |u| - |after| + (if after == [] then 0 else 1)
  {
    hide FromBits, ParseSiblings, Acks.ParseTable;
  }

  /** Reading past the end yields -1, which is true. */
  method ReadFlag(src: BitStream) returns (flag: bool)
    requires src.Valid() && !src.byteAligned
    modifies src`readOff, src`readBit, src`lastErr
    ensures src.Valid() && src.ReadPos() + |src.Unread()| == src.WritePos()
    ensures var u := old(src.Unread());
            if u == [] then flag && src.Unread() == u else flag == u[0] && src.Unread() == u[1..]
  {
    hide BytesBits, FromBits;
    ghost var u := src.Unread();
    if u != [] {
      OneBit(u[0]);
      assert u[..1] == [u[0]];
    }
    var bit := NextChecked(src, 1);
    flag := bit != 0;
  }

  lemma TailSlice(src: BitStream, tail: seq<byte>, lo: nat, hi: nat)
    requires src.Valid() && src.writeBit == 0 && HEAD_BYTES <= lo <= hi <= src.writeOff
    requires |src.Stored()| == HEAD_BYTES + |tail| && src.Stored()[HEAD_BYTES..] == tail
    ensures src.buf[lo..hi] == tail[lo - HEAD_BYTES..hi - HEAD_BYTES]
  {
  }

  /** The first byte boundary behind the header. */
  lemma NextByte(off: nat, bit: nat, length: nat)
    requires bit < 8 && 8 * off + bit == 8 * HEAD_BYTES + length
    ensures off + (if bit > 0 then 1 else 0) == HEAD_BYTES + BytesFor(length)
    ensures forall n: nat :: length <= 8 * n ==> BytesFor(length) <= n
  {
  }

  /** The payload ends within the stored bytes. */
  lemma WholeBytesLeft(bitLength: nat, start: nat, n: nat)
    requires bitLength <= 8 * (HEAD_BYTES + n)
    ensures bitLength >= 8 * (HEAD_BYTES + start) ==> start + BytesFor(bitLength - 8 * (HEAD_BYTES + start)) <= n
  {
  }

  /** The payload, from the next byte boundary on. */
  method ReadPayload(src: BitStream, bitLength: u32, h: Header, ghost tail: seq<byte>) returns (f: Parsed)
    requires src.Valid() && src.writeBit == 0 && src.ReadPos() == 8 * HEAD_BYTES + h.length
    requires |src.Stored()| == HEAD_BYTES + |tail| && src.Stored()[HEAD_BYTES..] == tail && h.length <= 8 * |tail|
    requires bitLength <= 8 * (HEAD_BYTES + |tail|) && !Payload(tail, bitLength, h).Malformed?
    modifies src`readOff, src`readBit, src`writeOff, src`writeBit
    ensures src.Valid() && f == Payload(tail, bitLength, h)
  {
    hide BytesBits, BitStream.TailClear, BitStream.Written, Zeros, BytesFor;
    NextByte(src.readOff, src.readBit, h.length);
    WholeBytesLeft(bitLength, BytesFor(h.length), |tail|);
    SkipToByte(src, HEAD_BYTES + BytesFor(h.length), |tail|);
    var left := bitLength - src.ReadPos();
    var bytes := TakeBytes(src, BytesFor(left), tail);
    var s := h.siblings;
    f := Received(Packet(h.seqNo, s.count, s.id, s.position, true, h.compressed, Contents(bytes, left)), h.acks);
  }

  /** The next n bytes. */
  method TakeBytes(src: BitStream, n: nat, ghost tail: seq<byte>) returns (bytes: seq<byte>)
    requires src.Valid() && src.writeBit == 0 && HEAD_BYTES <= src.readOff && src.readOff + n <= src.writeOff
    requires |src.Stored()| == HEAD_BYTES + |tail| && src.Stored()[HEAD_BYTES..] == tail
    ensures bytes == tail[src.readOff - HEAD_BYTES..src.readOff - HEAD_BYTES + n]
  {
    hide BytesBits, BitStream.TailClear, BitStream.Written;
    TailSlice(src, tail, src.readOff, src.readOff + n);
    bytes := src.buf[src.readOff..src.readOff + n];
  }

  /** Moves on to the next byte boundary, which lies within the stored bytes. */
  method SkipToByte(src: BitStream, ghost at: nat, ghost n: nat)
    requires src.Valid() && src.writeBit == 0 && at == src.NextReadByte() <= HEAD_BYTES + n == |src.Stored()|
    modifies src`readOff, src`readBit, src`writeOff, src`writeBit
    ensures src.Valid() && src.writeBit == 0 && src.writeOff == old(src.writeOff) && src.buf == old(src.buf)
    ensures src.readOff == at && src.readBit == 0 && src.Stored() == old(src.Stored())
  {
    hide BytesBits, BitStream.TailClear, BitStream.Written, Zeros;
    src.ByteAlign(true, false);
  }

  /** Everything after the checksum. */
  method ReadTail(src: BitStream, bitLength: u32, ghost tail: seq<byte>) returns (f: Parsed)
    requires src.Valid() && !src.byteAligned && src.writeBit == 0 && src.ReadPos() == 8 * HEAD_BYTES
    requires |src.Stored()| == HEAD_BYTES + |tail| && src.Stored()[HEAD_BYTES..] == tail
    requires bitLength <= 8 * (HEAD_BYTES + |tail|) && !ParseTail(tail, bitLength).Malformed?
    modifies src`readOff, src`readBit, src`writeOff, src`writeBit, src`lastErr
    ensures src.Valid() && f == ParseTail(tail, bitLength)
  {
    hide BytesBits, ParseHeader, Payload;
    UnreadIs(src, tail);
    var h := ReadHeader(src);
    f := ReadPayload(src, bitLength, h, tail);
  }

  /** One received datagram; an assertion of the source fails exactly on the malformed ones. */
  method ReadFrame(src: BitStream) returns (f: Parsed)
    requires src.Valid() && !src.byteAligned && src.writeBit == 0 && src.ReadPos() == 0
    requires !Parse(src.Stored()).Malformed?
    modifies src`readOff, src`readBit, src`writeOff, src`writeBit, src`lastErr
    ensures src.Valid() && f == Parse(old(src.Stored()))
    ensures f.Received? ==>
              && old(|src.Stored()|) >= SHORTEST_FRAME
              && Damages.ChecksumRight(old(src.Stored())) && Damages.LengthAllowed(old(src.Stored()))
  {
    hide BytesBits, LoadLE, ParseTail, Checksums.Value, Damages.ChecksumRight, Damages.LengthAllowed;
    Damages.RejectedExactly(src.Stored());
    if src.ReadableBytes() < SHORTEST_FRAME {
      return TooShort;
    }
    ghost var frame := src.Stored();
    var ok, bitLength := src.Get32();
    assert frame[0..4] == frame[..4];
    var ok2, checksum := src.Get32();
    var rest := src.buf[src.readOff..src.writeOff];
    assert rest == frame[HEAD_BYTES..];
    var realSum := Checksums.Checksum(rest);
    if realSum != checksum {
      return BadChecksum;
    }
    f := ReadTail(src, bitLength, rest);
  }

  lemma UnreadIs(src: BitStream, tail: seq<byte>)
    requires src.Valid() && src.writeBit == 0 && src.ReadPos() == 8 * HEAD_BYTES
    requires |src.Stored()| == HEAD_BYTES + |tail| && src.Stored()[HEAD_BYTES..] == tail
    ensures src.Unread() == BytesBits(tail)
  {
    hide BytesBits;
    BytesBitsCut(src.buf[..], src.writeOff);
    assert src.buf[..][..src.writeOff] == src.Stored();
    BytesBitsCut(src.Stored(), HEAD_BYTES);
  }
}
