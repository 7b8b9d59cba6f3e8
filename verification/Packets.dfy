module Options {
  datatype Option<+T> = None | Some(value: T)
}

/** Packets as values: the header fields and the readable contents of a packet's stream. */
module Packets {
  import opened Bits
  import Packed = PackedCode

  /** The unread part of a byte-aligned stream; the last byte may hold fewer than eight bits. */
  datatype Contents = Contents(bytes: seq<byte>, nbits: nat) {
    predicate Valid() {
      |bytes| == BytesFor(nbits)
    }

    /** Whole bytes only, as the streams count them. */
    function WholeBytes(): nat {
      nbits / 8
    }

    function Bits(): seq<bool>
      requires Valid()
    {
      BytesBits(bytes)[..nbits]
    }
  }

  type Body = c: Contents | c.Valid() witness Contents([], 0)

  datatype Packet = Packet(
    seqNo: u32, numSibs: u32, sibId: u32, sibPos: u32, reliable: bool, compressed: bool, body: Body)
  {
    /** Only packets with siblings use the sibling fields. */
    predicate Valid() {
      numSibs == 0 ==> sibId == 0 && sibPos == 0
    }

    predicate HasSiblings() {
      numSibs > 0
    }

    /** The packed number at the start of a whole message; -1 for a part of a split one. */
    function Command(): u32 {
      if sibId == 0 then Packed.Decode(body.Bits(), 1, 0).value else Packed.MINUS_ONE
    }
  }
}
