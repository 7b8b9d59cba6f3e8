/** The growing bit buffer: bytes in an array, read and written at any bit offset. */
module BitStreams {
  import opened Bits
  import opened WordAccess
  import Packed = PackedCode

  const SAFE_AREA: nat := 7
  const GROWTH_LIMIT: nat := 0x10_0000
  const NO_LIMIT: nat := 0xFFFF_FFFF
  const UINT32_BITS: nat := 32

  /** Streams of at most this many bits never reach the growth limit. */
  const LONGEST_STREAM: nat := 0x7F_F000

  function ByteAligned(n: nat): nat {
    (n + 7) / 8 * 8
  }

  /** Zero bits up to the next byte boundary, which byte-aligned mode adds. */
  function Slack(aligned: bool, n: nat): nat {
    if aligned then ByteAligned(n) - n else 0
  }

  class BitStream {
    var buf: array<byte>
    var size: nat
    var maxSize: nat
    var writeOff: nat
    var writeBit: nat
    var readOff: nat
    var readBit: nat
    var byteAligned: bool
    var lastErr: nat

    ghost predicate Valid()
      reads this
    {
      && buf.Length == size + SAFE_AREA
      && size < 0x1000_0000
      && writeBit < 8 && readBit < 8
      && ReadPos() <= WritePos() <= 8 * size
    }

    function WritePos(): nat
      reads this
    {
      8 * writeOff + writeBit
    }

    function ReadPos(): nat
      reads this
    {
      8 * readOff + readBit
    }

    /** The number of bytes touched by the stored bits. */
    function StoredLen(): nat
      reads this
    {
      writeOff + (if writeBit > 0 then 1 else 0)
    }

    /** The first byte boundary at or after the read position. */
    function NextReadByte(): nat
      reads this
    {
      readOff + (if readBit > 0 then 1 else 0)
    }

    function ReadableBits(): nat
      requires Valid()
      reads this
    {
      8 * (writeOff - readOff) + writeBit - readBit
    }

    /** Whole bytes between the offsets; a last partial byte is not counted. */
    function ReadableBytes(): nat
      requires Valid()
      reads this
    {
      writeOff - readOff
    }

    function AvailSize(): nat
      reads this
    {
      var used := writeOff + (if writeBit != 0 then 1 else 0);
      if used <= size then size - used else 0
    }

    function WritableBits(): nat
      reads this
    {
      if 8 * AvailSize() > writeBit then 8 * AvailSize() - writeBit else 0
    }

    /** Every bit stored so far, consumed ones included. */
    ghost function Written(): (r: seq<bool>)
      requires Valid()
      reads this, buf
      ensures |r| == WritePos()
    {
      BytesBits(buf[..])[..WritePos()]
    }

    ghost function Unread(): seq<bool>
      requires Valid()
      reads this, buf
    {
      Written()[ReadPos()..]
    }

    /** The bytes touched so far, the last one perhaps partly. */
    ghost function Stored(): seq<byte>
      requires Valid()
      reads this, buf
    {
      buf[..StoredLen()]
    }

    /** All bits after the write position, up to the end of the buffer, are clear. */
    ghost predicate TailClear()
      requires Valid()
      reads this, buf
    {
      forall i :: WritePos() <= i < 8 * size ==> !BytesBits(buf[..])[i]
    }

    twostate predicate ReaderKept()
      reads this
    {
      && readOff == old(readOff) && readBit == old(readBit)
      && byteAligned == old(byteAligned) && maxSize == old(maxSize)
    }

    constructor (preAlloc: nat)
      requires 0 < preAlloc < 0xFFF_FFF0
      ensures Valid() && fresh(buf)
      ensures size >= 8 && size >= preAlloc && maxSize == NO_LIMIT && !byteAligned && lastErr == 0
      ensures WritePos() == 0 && ReadPos() == 0 && TailClear()
    {
      var rounded := (preAlloc + 7) / 8 * 8;
      size := rounded;
      maxSize := NO_LIMIT;
      writeOff, writeBit, readOff, readBit := 0, 0, 0, 0;
      byteAligned := false;
      lastErr := 0;
      buf := new byte[rounded + SAFE_AREA];
      new;
      forall i | 0 <= i < rounded { buf[i] := 0; }
      ClearBytes(buf[..], 0, rounded);
    }

    /** A stream over a copy of received bytes. */
    constructor FromBytes(bytes: seq<byte>)
      requires |bytes| < 0x7FF_FFF0
      ensures Valid() && fresh(buf) && !byteAligned
      ensures ReadPos() == 0 && writeBit == 0 && Stored() == bytes && Written() == BytesBits(bytes)
    {
      var room := 2 * |bytes| + 1;
      size := room;
      maxSize := if |bytes| > 0x10000 then |bytes| else 0x10000;
      writeOff, writeBit, readOff, readBit := |bytes|, 0, 0, 0;
      byteAligned := false;
      lastErr := 0;
      buf := new byte[room + SAFE_AREA];
      new;
      forall i | 0 <= i < |bytes| { buf[i] := bytes[i]; }
      assert buf[..|bytes|] == bytes;
      BytesBitsCut(buf[..], |bytes|);
      assert buf[..][..|bytes|] == bytes;
    }

    /** Make room; old contents are copied only when more than one byte has been written. */
    method Resize(accommodate: nat) returns (r: int)
      requires Valid()
      requires size <= accommodate <= maxSize ==> accommodate < GROWTH_LIMIT
      modifies this
      ensures Valid() && ReaderKept() && (buf == old(buf) || fresh(buf))
      ensures writeOff == old(writeOff) && writeBit == old(writeBit) && lastErr == old(lastErr)
      ensures r == if accommodate > maxSize then -1 else 0
      ensures r == -1 || accommodate < old(size) ==> buf == old(buf) && size == old(size)
      ensures r == 0 ==> size >= old(size) && size >= accommodate
      ensures buf == old(buf) ==> size == old(size)
      ensures 0 < accommodate < maxSize ==> size > accommodate
      ensures buf == old(buf) || old(writeOff) > 1 || old(WritePos()) == 0 ==> Written() == old(Written())
      ensures (buf == old(buf) || old(writeOff) > 1) && old(TailClear()) ==> TailClear()
      ensures buf == old(buf) || old(writeOff) > 1 ==> Stored() == old(Stored())
    {
      hide BytesBits;
      ghost var bytes, room := buf[..], size;
      if accommodate > maxSize { return -1; }
      if accommodate < size { return 0; }
      var newSize := if accommodate != 0 then 2 * accommodate + 1 else 0;
      newSize := if newSize < maxSize then newSize else maxSize;
      if newSize > size {
        Reallocate(newSize);
        if writeOff > 1 {
          GrownBits(bytes, buf[..], room, newSize, WritePos());
        }
      }
      r := 0;
    }

    /** A new zero-extended buffer, with the old contents if more than one byte has been written. */
    method Reallocate(newSize: nat)
      requires Valid() && size < newSize < 0x1000_0000
      modifies this`buf, this`size
      ensures Valid() && fresh(buf) && size == newSize
      ensures old(writeOff) > 1 ==> buf[..][..old(size)] == old(buf[..][..size])
      ensures forall i :: old(size) <= i < buf.Length ==> buf[i] == 0
    {
      var tmp := new byte[newSize + SAFE_AREA];
      if writeOff > 1 {
        forall i | 0 <= i < size { tmp[i] := buf[i]; }
        assert tmp[..][..size] == buf[..][..size];
      }
      forall i | size <= i < newSize + SAFE_AREA { tmp[i] := 0; }
      buf := tmp;
      size := newSize;
    }

    /** The unchecked store: one read-modify-write of the eight bytes at the write offset. */
    method UStoreBits(nBits: nat, dataBits: u32)
      requires Valid() && nBits <= UINT32_BITS
      requires writeOff < size && WritePos() + nBits <= 8 * size
      modifies this`writeOff, this`writeBit, buf
      ensures Valid() && WritePos() == old(WritePos()) + nBits
      ensures Written() == old(Written()) + ToBits(dataBits, nBits)
      ensures old(TailClear()) && dataBits < Pow2(nBits) ==> TailClear()
    {
      hide BytesBits, ToBits, Pow2, WriteBits;
      ghost var bytes, pos := buf[..], WritePos();
      MergeAt(nBits, dataBits);
      WriteBitsAppends(bytes, writeOff, writeBit, nBits, dataBits, pos);
      WriteBitsTailClear(bytes, writeOff, writeBit, nBits, dataBits, 8 * size);
      writeOff, writeBit := writeOff + (writeBit + nBits) / 8, (writeBit + nBits) % 8;
    }

    /** The read-modify-write itself. */
    method MergeAt(nBits: nat, dataBits: u32)
      requires Valid() && writeOff < size
      modifies buf
      ensures buf[..] == WriteBits(old(buf[..]), writeOff, writeBit, nBits, dataBits)
    {
      hide BytesBits, MergeWord, WriteBits, LoadWord;
      WriteBitsShape(buf[..], writeOff, writeBit, nBits, dataBits);
      var merged: seq<byte> := PackBytes(MergeWord(LoadWord(buf[..], writeOff), writeBit, nBits, dataBits));
      SetEight(merged);
    }

    method SetEight(t: seq<byte>)
      requires |t| == 8 && writeOff + 8 <= buf.Length
      modifies buf
      ensures buf[..] == old(buf[..writeOff]) + t + old(buf[writeOff + 8..])
    {
      forall k | 0 <= k < 8 { buf[writeOff + k] := t[k]; }
    }

    /** Whether storing n bits fits, with or without growth. */
    predicate CanStore(n: nat)
      reads this
    {
      n <= WritableBits() || size + n / 8 + 7 <= maxSize
    }

    function StoredWidth(n: nat): nat
      reads this
    {
      if byteAligned then ByteAligned(n) else n
    }

    function StoredValue(n: nat, d: u32): u32
      reads this
    {
      if byteAligned && n != UINT32_BITS then ModAtMost(d, Pow2(n)); d % Pow2(n) else d
    }

    /** Appends exactly the low nBits bits; in byte-aligned mode they are rounded up to whole bytes. */
    method StoreBits(nBits: nat, dataBits: u32)
      requires Valid() && nBits <= UINT32_BITS && size >= 8
      requires nBits == 0 ==> writeOff < size
      requires WritableBits() < nBits && CanStore(nBits) ==> size + nBits / 8 + 7 < GROWTH_LIMIT
      modifies this, buf
      ensures Valid() && ReaderKept() && (buf == old(buf) || fresh(buf)) && size >= 8
      ensures old(CanStore(nBits)) ==>
              Written() == old(Written() + ToBits(StoredValue(nBits, dataBits), StoredWidth(nBits)))
      ensures old(CanStore(nBits)) && old(TailClear()) && dataBits < Pow2(nBits) ==> TailClear()
      ensures old(CanStore(nBits)) ==> lastErr == old(lastErr)
      ensures !old(CanStore(nBits)) ==> lastErr == 1 && Written() == old(Written())
    {
      hide BytesBits, ToBits, Pow2;
      ghost var width, value := StoredWidth(nBits), StoredValue(nBits, dataBits);
      if nBits > WritableBits() {
        var res := Resize(size + nBits / 8 + 7);
        if res == -1 {
          lastErr := 1;
          return;
        }
      }
      var n, d := nBits, dataBits;
      if byteAligned {
        if n != UINT32_BITS {
          d := d % Pow2(n);
        }
        n := ByteAligned(n);
        Pow2Grows(nBits, n);
      }
      if dataBits < Pow2(nBits) { ModUnique(dataBits, Pow2(nBits), 0, dataBits); }
      UStoreBits(n, d);
    }

    /** Storing k more bits cannot reach a limit. */
    ghost predicate Spacious(k: nat)
      reads this
    {
      Valid() && size >= 8 && maxSize == NO_LIMIT && WritePos() + k <= LONGEST_STREAM
    }

    /** A stream for composing messages bit by bit. */
    ghost predicate Roomy(k: nat)
      reads this
    {
      Spacious(k) && !byteAligned
    }

    /** Appends the packed code of dataBits; in byte-aligned mode, its 32 bits. */
    method StorePackedBits(nBits: nat, dataBits: u32)
      requires 1 <= nBits <= UINT32_BITS && Spacious(96)
      modifies this, buf
      ensures Valid() && ReaderKept() && (buf == old(buf) || fresh(buf)) && size >= 8
      ensures Written() == old(Written()) +
              if byteAligned then ToBits(dataBits, UINT32_BITS) else Packed.Encode(dataBits, nBits)
      ensures old(TailClear()) ==> TailClear()
    {
      hide BytesBits, ToBits, Pow2, Packed.Encode;
      if byteAligned {
        Packed.Pow2Value32();
        StoreBits(UINT32_BITS, dataBits);
        return;
      }
      StoreGroups(nBits, dataBits);
    }

    method StoreGroups(nBits: nat, dataBits: u32)
      requires 1 <= nBits <= UINT32_BITS && Roomy(96)
      modifies this, buf
      ensures Valid() && ReaderKept() && (buf == old(buf) || fresh(buf)) && size >= 8
      ensures Written() == old(Written()) + Packed.Encode(dataBits, nBits)
      ensures old(TailClear()) ==> TailClear()
    {
      hide BytesBits, ToBits, Pow2, Packed.Encode;
      ghost var before, code := Written(), Packed.Encode(dataBits, nBits);
      Packed.CodeLength(dataBits, nBits);
      var n: nat, d: u32 := nBits, dataBits;
      while n < UINT32_BITS && d >= Packed.Mask(n)
        invariant 1 <= n <= UINT32_BITS
        invariant Valid() && ReaderKept() && (buf == old(buf) || fresh(buf)) && size >= 8
        invariant Written() + Packed.Encode(d, n) == before + code
        invariant old(TailClear()) ==> TailClear()
        decreases UINT32_BITS - n
      {
        ghost var soFar, group := Written(), ToBits(Packed.Mask(n), n);
        var m := Packed.Mask(n);
        Packed.MaskLimit(n);
        Packed.EncodeMore(d, n);
        StoreBits(n, m);
        d := d - m;
        n := Packed.NextWidth(n);
        ConcatAssoc(soFar, group, Packed.Encode(d, n));
      }
      Packed.LastGroup(d, n);
      Packed.EncodeLast(d, n);
      StoreBits(n, d);
    }

    /** Moves the write or read position up to the next byte boundary. */
    method ByteAlign(readPart: bool, writePart: bool)
      requires Valid()
      requires readPart ==> 8 * NextReadByte() <= if writePart then 8 * StoredLen() else WritePos()
      modifies this`writeOff, this`writeBit, this`readOff, this`readBit
      ensures Valid()
      ensures WritePos() == if writePart then 8 * old(StoredLen()) else old(WritePos())
      ensures ReadPos() == if readPart then 8 * old(NextReadByte()) else old(ReadPos())
      ensures Stored() == old(Stored())
      ensures old(TailClear()) ==> TailClear() && Written() == old(Written()) + Zeros(WritePos() - old(WritePos()))
    {
      hide BytesBits;
      ghost var bits, pos := BytesBits(buf[..]), WritePos();
      if writePart {
        writeOff := writeOff + (if writeBit > 0 then 1 else 0);
        writeBit := 0;
      }
      if readPart {
        readOff := readOff + (if readBit > 0 then 1 else 0);
        readBit := 0;
      }
      ClearRun(bits, pos, WritePos());
    }

    /** Copies whole bytes at the write offset.  Growing after exactly one byte loses that byte. */
    method PutBytes(t: seq<byte>)
      requires Valid() && writeBit == 0
      requires size < writeOff + |t| <= maxSize ==> writeOff + |t| < GROWTH_LIMIT
      modifies this, buf
      ensures Valid() && ReaderKept() && (buf == old(buf) || fresh(buf)) && size >= old(size)
      ensures old(writeOff + |t| <= size || writeOff + |t| <= maxSize) ==>
          writeBit == 0 && writeOff == old(writeOff) + |t| && lastErr == old(lastErr)
          && Stored()[old(writeOff)..] == t
          && (old(writeOff != 1 || 1 + |t| <= size) ==> Stored() == old(Stored()) + t)
          && (old(writeOff != 1 || 1 + |t| <= size) ==> Written() == old(Written()) + BytesBits(t))
      ensures old(size < writeOff + |t| && maxSize < writeOff + |t|) ==>
          lastErr == 1 && writeOff == old(writeOff) && writeBit == 0 && Written() == old(Written())
              && Stored() == old(Stored())
    {
      hide BytesBits;
      if writeOff + |t| > size {
        var res := Resize(writeOff + |t|);
        if res == -1 {
          lastErr := 1;
          return;
        }
      }
      UPutBytes(t);
    }

    method UPutBytes(t: seq<byte>)
      requires Valid() && writeBit == 0 && writeOff + |t| <= size
      modifies this`writeOff, buf
      ensures Valid() && writeOff == old(writeOff) + |t|
      ensures Stored() == old(Stored()) + t && Written() == old(Written()) + BytesBits(t)
      ensures buf[writeOff..] == old(buf[writeOff + |t|..])
    {
      hide BytesBits;
      ghost var before := buf[..];
      forall i | 0 <= i < |t| { buf[writeOff + i] := t[i]; }
      ghost var after := buf[..writeOff + |t|];
      assert after == before[..writeOff] + t;
      BytesBitsConcat(before[..writeOff], t);
      BytesBitsCut(buf[..], writeOff + |t|);
      BytesBitsCut(before, writeOff);
      assert buf[..][..writeOff + |t|] == after;
      assert buf[writeOff + |t|..] == before[writeOff + |t|..];
      writeOff := writeOff + |t|;
    }

    /**
     * Appends nBits bits of src from the next byte boundary on; a last partial byte is copied whole.  If the size limit
     * forbids it, an error is reported, but a partial byte at the end of src still takes back the last one stored.
     */
    method StoreBitArray(src: seq<byte>, nBits: nat)
      requires Valid() && |src| == BytesFor(nBits)
      requires size < StoredLen() + |src| <= maxSize ==> StoredLen() + |src| < GROWTH_LIMIT
      requires StoredLen() + |src| > size && StoredLen() + |src| > maxSize && nBits % 8 != 0 ==>
          ReadPos() <= 8 * (StoredLen() - 1) + nBits % 8
      modifies this, buf
      ensures Valid() && ReaderKept() && (buf == old(buf) || fresh(buf)) && size >= old(size)
      ensures old(StoredLen() + |src| <= size || StoredLen() + |src| <= maxSize) ==>
          lastErr == old(lastErr) && WritePos() == 8 * old(StoredLen()) + nBits
          && Stored()[old(StoredLen())..] == src
          && (old(StoredLen() != 1 || 1 + |src| <= size) ==> Stored() == old(Stored()) + src)
      ensures old(StoredLen() + |src| > size && StoredLen() + |src| > maxSize) ==>
          lastErr == 1 && Stored() == old(Stored())
          && WritePos() == 8 * old(StoredLen()) - if nBits % 8 == 0 then 0 else 8 - nBits % 8
    {
      hide BytesBits, BytesFor;
      BytesForCases(nBits);
      ghost var before := Stored();
      ByteAlign(false, true);
      assert Stored() == before;
      PutBytes(src);
      DropPartial(nBits);
    }

    /** The last byte copied holds only the bits of nBits past its last byte boundary. */
    method DropPartial(nBits: nat)
      requires Valid() && writeBit == 0 && (nBits % 8 != 0 ==> ReadPos() + 8 <= WritePos() + nBits % 8)
      modifies this`writeOff, this`writeBit
      ensures Valid() && WritePos() == old(WritePos()) - if nBits % 8 == 0 then 0 else 8 - nBits % 8
      ensures StoredLen() == old(StoredLen()) && Stored() == old(Stored())
    {
      hide BytesBits;
      if nBits % 8 != 0 {
        assert writeOff >= 1;
        writeOff := writeOff - 1;
        writeBit := nBits % 8;
      }
    }

    /** Appends one byte, or four little-endian ones.  Growing after exactly one byte loses that byte. */
    method PutInt(v: nat, width: nat)
      requires Valid() && writeBit == 0
      requires size < writeOff + width <= maxSize ==> writeOff + width < GROWTH_LIMIT
      modifies this, buf
      ensures Valid() && ReaderKept() && (buf == old(buf) || fresh(buf)) && size >= old(size)
      ensures old(writeOff + width <= size || writeOff + width <= maxSize) ==>
          writeBit == 0 && writeOff == old(writeOff) + width && lastErr == old(lastErr)
          && Stored()[old(writeOff)..] == StoreLE(v, width)
          && (old(writeOff != 1 || 1 + width <= size) ==> Stored() == old(Stored()) + StoreLE(v, width))
      ensures old(size < writeOff + width && maxSize < writeOff + width) ==> lastErr == 1 && Written() == old(Written())
      ensures old(writeOff + width <= size) && old(TailClear()) ==> TailClear()
    {
      hide BytesBits, StoreLE;
      if width > size - writeOff {
        var r := Resize(writeOff + width);
        if r == -1 {
          lastErr := 1;
          return;
        }
      }
      ghost var bytes, at := buf[..], writeOff;
      UPutBytes(StoreLE(v, width));
      StillClear(bytes, buf[..], at + width, 8 * size);
    }

    /** Overwrites four bytes that have already been stored. */
    method Patch32(at: nat, v: u32)
      requires Valid() && at + 4 <= writeOff
      modifies buf
      ensures Valid() && Stored() == old(Stored()[..at] + StoreLE(v, 4) + Stored()[at + 4..])
    {
      hide StoreLE;
      var bytes := StoreLE(v, 4);
      forall i | 0 <= i < 4 { buf[at + i] := bytes[i]; }
    }

    /** The unchecked read of the 64-bit word at the read offset. */
    method UGetBits(nBits: nat) returns (r: u32)
      requires Valid() && 1 <= nBits <= UINT32_BITS && nBits <= ReadableBits()
      modifies this`readOff, this`readBit
      ensures Valid() && ReadPos() == old(ReadPos()) + nBits
      ensures r == FromBits(old(Unread())[..nBits])
    {
      hide BytesBits, FromBits, Pow2, LoadWord;
      ghost var pos, end := ReadPos(), WritePos();
      ghost var window := BytesBits(buf[..])[pos..pos + nBits];
      var w := LoadWord(buf[..], readOff);
      ReadBitsValue(buf[..], readOff, readBit, nBits, pos);
      Packed.Pow2Limit(nBits);
      assert Unread()[..nBits] == window by {
        WindowOfWindow(BytesBits(buf[..]), 0, Written(), pos, nBits, pos);
        WindowOfWindow(Written(), pos, Unread(), 0, nBits, pos);
      }
      assert |window| == nBits;
      r := FromBits(ExtractBits(w, readBit, nBits));
      readOff, readBit := readOff + (readBit + nBits) / 8, (readBit + nBits) % 8;
    }

    method GetBits(nBits: nat) returns (r: u32)
      requires Valid() && 1 <= nBits <= UINT32_BITS
      requires nBits <= ReadableBits() ==> StoredWidth(nBits) <= ReadableBits()
      modifies this`readOff, this`readBit, this`lastErr
      ensures Valid()
      ensures nBits > old(ReadableBits()) ==> r == Packed.MINUS_ONE && ReadPos() == old(ReadPos()) && lastErr == 1
      ensures nBits <= old(ReadableBits()) ==>
          r == FromBits(old(Unread())[..StoredWidth(nBits)]) && ReadPos() == old(ReadPos()) + StoredWidth(nBits)
              && lastErr == old(lastErr)
    {
      if nBits > ReadableBits() {
        lastErr := 1;
        return Packed.MINUS_ONE;
      }
      r := UGetBits(if byteAligned then ByteAligned(nBits) else nBits);
    }

    /**
     * Reads one packed integer, exactly as the code's decoder does, also on a truncated stream; or 32 bits if byte-
     * aligned.
     */
    method GetPackedBits(minBits: nat) returns (r: u32)
      requires Valid() && 1 <= minBits <= UINT32_BITS
      modifies this`readOff, this`readBit, this`lastErr
      ensures Valid() && ReadPos() >= old(ReadPos())
      ensures Packed.Decoded(r, ReadPos() - old(ReadPos())) ==
          if byteAligned then Packed.ReadGroup(old(Unread()), UINT32_BITS) else Packed.Decode(old(Unread()), minBits, 0)
    {
      hide BytesBits, FromBits, Packed.Decode;
      if byteAligned {
        r := GetBits(UINT32_BITS);
        return;
      }
      r := GetGroups(minBits);
    }

    method GetGroups(minBits: nat) returns (r: u32)
      requires Valid() && 1 <= minBits <= UINT32_BITS && !byteAligned
      modifies this`readOff, this`readBit, this`lastErr
      ensures Valid()
      ensures ReadPos() >= old(ReadPos())
      ensures Packed.Decode(old(Unread()), minBits, 0) == Packed.Decoded(r, ReadPos() - old(ReadPos()))
    {
      hide BytesBits, FromBits, Pow2, Packed.Decode, Packed.Mask, Packed.ReadGroup;
      var n, accumulator: u32 := minBits, 0;
      ghost var all, from := Unread(), ReadPos();
      ghost var start := Packed.Decode(all, minBits, 0);
      while ReadableBits() > 0
        invariant Valid() && 1 <= n <= UINT32_BITS && ReadPos() >= from
        invariant Written() == old(Written())
        invariant var d := Packed.Decode(Unread(), n, accumulator);
                  start == Packed.Decoded(d.value, ReadPos() - from + d.consumed)
        decreases UINT32_BITS - n, ReadableBits()
      {
        ghost var unread := Unread();
        Packed.DecodeStep(unread, n, accumulator);
        var bits := GetGroup(n);
        var bitMask := Packed.Mask(n);
        Packed.MaskLimit(n);
        if bits < bitMask || n == UINT32_BITS {
          return Wrap32(bits + accumulator);
        }
        accumulator := Wrap32(accumulator + bitMask);
        n := Packed.NextWidth(n);
      }
      Packed.NothingLeft(n, accumulator);
      return Packed.MINUS_ONE;
    }

    method GetGroup(n: nat) returns (bits: u32)
      requires Valid() && 1 <= n <= UINT32_BITS && !byteAligned
      modifies this`readOff, this`readBit, this`lastErr
      ensures Valid() && Written() == old(Written())
      ensures var g := Packed.ReadGroup(old(Unread()), n);
              bits == g.value && ReadPos() == old(ReadPos()) + g.consumed && Unread() == old(Unread())[g.consumed..]
    {
      hide BytesBits, FromBits, Pow2;
      Packed.Pow2Limit(n);
      bits := GetBits(n);
    }

    /** Reads four little-endian bytes, or fails leaving the target unset. */
    method Get32() returns (ok: bool, v: u32)
      requires Valid() && (ReadableBytes() == 4 ==> readBit <= writeBit)
      modifies this`readOff, this`lastErr
      ensures Valid() && ok == (old(ReadableBytes()) >= 4)
      ensures ok ==>
              v == LoadLE(Stored()[old(readOff)..old(readOff) + 4]) && readOff == old(readOff) + 4
                  && lastErr == old(lastErr)
      ensures !ok ==> readOff == old(readOff) && lastErr == 1
    {
      hide LoadLE, Pow2;
      if ReadableBytes() < 4 {
        lastErr := 1;
        return false, 0;
      }
      var four := buf[..][readOff..readOff + 4];
      WindowOfWindow(buf[..], 0, Stored(), readOff, 4, readOff);
      LoadLEBound(four);
      Packed.Pow2Value32();
      ok, v := true, LoadLE(four);
      readOff := readOff + 4;
    }

    /** Moves all unread bits of src, at least one, to the end of this stream. */
    method AppendBitStream(src: BitStream)
      requires src != this && src.Valid() && src.ReadableBits() >= 1 && src.buf != buf
      requires Spacious(src.ReadableBits() + 7)
      modifies this, buf, src`readOff, src`readBit
      ensures Valid() && ReaderKept() && (buf == old(buf) || fresh(buf))
      ensures Written() == old(Written()) + old(src.Unread()) + Zeros(Slack(byteAligned, old(src.ReadableBits())))
      ensures src.Valid() && src.ReadableBits() == 0 && src.Written() == old(src.Written())
    {
      hide BytesBits, Zeros, Slack;
      MoveWords(src);
      ghost var before, unread := Written(), src.Unread();
      var left := src.ReadableBits();
      MoveBits(src, left);
      assert unread[..left] == unread;
    }

    /** Moves 32 bits at a time until at most 32 are left. */
    method MoveWords(src: BitStream)
      requires src != this && src.Valid() && src.ReadableBits() >= 1 && src.buf != buf
      requires Spacious(src.ReadableBits() + 7)
      modifies this, buf, src`readOff, src`readBit
      ensures src.Valid() && 1 <= src.ReadableBits() <= 32 && src.Written() == old(src.Written()) && src.buf != buf
      ensures Spacious(src.ReadableBits() + 7) && ReaderKept() && (buf == old(buf) || fresh(buf))
      ensures Written() + src.Unread() == old(Written() + src.Unread())
      ensures Slack(byteAligned, src.ReadableBits()) == Slack(byteAligned, old(src.ReadableBits()))
    {
      hide BytesBits, Zeros, Slack;
      var left := src.ReadableBits();
      ghost var slack := Slack(byteAligned, left);
      while left > 32
        invariant src.Valid() && src.Written() == old(src.Written()) && src.buf != buf
        invariant left == src.ReadableBits() && 1 <= left && Spacious(left + 7)
        invariant ReaderKept() && (buf == old(buf) || fresh(buf))
        invariant Written() + src.Unread() == old(Written() + src.Unread())
        invariant Slack(byteAligned, left) == slack
        decreases left
      {
        SameSlack(byteAligned, left - 32);
        MoveWord(src);
        left := left - 32;
      }
    }

    method MoveWord(src: BitStream)
      requires src != this && src.Valid() && src.ReadableBits() > 32 && src.buf != buf && Spacious(39)
      modifies this, buf, src`readOff, src`readBit
      ensures Valid() && ReaderKept() && (buf == old(buf) || fresh(buf)) && size >= 8
      ensures src.Valid() && src.ReadableBits() == old(src.ReadableBits()) - 32 && src.Written() == old(src.Written())
      ensures WritePos() == old(WritePos()) + 32
      ensures Written() + src.Unread() == old(Written() + src.Unread())
    {
      hide BytesBits, Zeros, Slack;
      ghost var before, unread := Written(), src.Unread();
      NoSlack(before, unread, 32);
      SameSlack(byteAligned, 0);
      MoveBits(src, 32);
    }

    lemma NoSlack(before: seq<bool>, unread: seq<bool>, n: nat)
      requires n <= |unread|
      ensures before + unread[..n] + Zeros(0) + unread[n..] == before + unread
    {
      assert unread == unread[..n] + unread[n..];
    }

    /** Moves n bits; if the size limit forbids storing them, they are read all the same. */
    method MoveBits(src: BitStream, n: nat)
      requires src != this && src.Valid() && 1 <= n <= 32 && n <= src.ReadableBits() && src.buf != buf
      requires Valid() && size >= 8 && (WritableBits() < n && CanStore(n) ==> size + n / 8 + 7 < GROWTH_LIMIT)
      modifies this, buf, src`readOff, src`readBit
      ensures Valid() && ReaderKept() && (buf == old(buf) || fresh(buf)) && size >= 8
      ensures src.Valid() && src.ReadPos() == old(src.ReadPos()) + n && src.Written() == old(src.Written())
      ensures src.Unread() == old(src.Unread())[n..]
      ensures old(CanStore(n)) ==>
          Written() == old(Written()) + old(src.Unread())[..n] + Zeros(Slack(byteAligned, n)) && lastErr == old(lastErr)
      ensures !old(CanStore(n)) ==> Written() == old(Written()) && lastErr == 1
    {
      hide BytesBits, FromBits, ToBits, Pow2, Zeros;
      ghost var unread, before := src.Unread(), Written();
      var v := src.UGetBits(n);
      SlackBits(unread[..n], n);
      StoreBits(n, v);
      assert src.Unread() == unread[n..];
      ConcatAssoc(before, unread[..n], Zeros(Slack(byteAligned, n)));
    }

    /** What StoreBits appends for a number of n bits. */
    lemma SlackBits(bits: seq<bool>, n: nat)
      requires |bits| == n <= UINT32_BITS && FromBits(bits) < 0x1_0000_0000
      ensures ToBits(StoredValue(n, FromBits(bits)), StoredWidth(n)) == bits + Zeros(Slack(byteAligned, n))
    {
      hide ToBits, FromBits, Pow2, Zeros;
      var v, k := FromBits(bits), Slack(byteAligned, n);
      ToFromBits(bits);
      ModUnique(v, Pow2(n), 0, v);
      ToBitsConcat(v, n, k);
      ShrIsDiv(v, n);
      ZerosAre(k);
    }

    /** There is room for n whole bytes, or the buffer may grow to hold them. */
    predicate CanPut(n: nat)
      reads this
    {
      n <= AvailSize() || writeOff + n <= maxSize
    }

    /** Growing for n bytes stays below the growth limit and leaves room for the bits of a partial byte. */
    predicate GrowsSafely(n: nat)
      reads this
    {
      AvailSize() < n && writeOff + n <= maxSize ==>
        writeOff + n < GROWTH_LIMIT && (writeBit > 0 ==> writeOff + n < maxSize)
    }

    /** Growing for n bytes does not lose what was written before. */
    predicate KeepsFront(n: nat)
      reads this
    {
      writeOff > 1 || WritePos() == 0 || n <= AvailSize()
    }

    /**
     * Stores the characters and a terminating zero, at any bit offset, or reports an error if the size limit forbids
     * it.
     */
    method StoreString(str: seq<byte>)
      requires Valid() && 0 !in str && (byteAligned ==> writeBit == 0) && GrowsSafely(|str| + 1)
      modifies this, buf
      ensures Valid() && ReaderKept() && (buf == old(buf) || fresh(buf))
      ensures old(CanPut(|str| + 1)) ==>
          lastErr == old(lastErr) && WritePos() == old(WritePos()) + 8 * (|str| + 1)
          && Written()[old(WritePos())..] == BytesBits(str + [0])
      ensures old(CanPut(|str| + 1) && KeepsFront(|str| + 1)) ==> Written() == old(Written()) + BytesBits(str + [0])
      ensures !old(CanPut(|str| + 1)) ==> lastErr == 1 && Written() == old(Written())
    {
      hide BytesBits;
      if byteAligned {
        AlignedText(str + [0]);
        return;
      }
      StoreText(str + [0]);
    }

    /** What the form for a string object stores: its characters only, unless the stream is byte-aligned. */
    function ViewText(str: seq<byte>): seq<byte>
      reads this
    {
      if byteAligned then str + [0] else str
    }

    method StoreView(str: seq<byte>)
      requires Valid() && 0 !in str && (byteAligned ==> writeBit == 0) && GrowsSafely(|ViewText(str)|)
      modifies this, buf
      ensures Valid() && ReaderKept() && (buf == old(buf) || fresh(buf))
      ensures old(CanPut(|ViewText(str)|)) ==>
          lastErr == old(lastErr) && WritePos() == old(WritePos()) + 8 * |ViewText(str)|
          && Written()[old(WritePos())..] == BytesBits(ViewText(str))
      ensures old(CanPut(|ViewText(str)|) && KeepsFront(|ViewText(str)|)) ==>
          Written() == old(Written()) + BytesBits(ViewText(str))
      ensures !old(CanPut(|ViewText(str)|)) ==> lastErr == 1 && Written() == old(Written())
    {
      hide BytesBits;
      if byteAligned {
        AlignedText(str + [0]);
        return;
      }
      StoreText(str);
    }

    method AlignedText(text: seq<byte>)
      requires Valid() && byteAligned && writeBit == 0 && GrowsSafely(|text|)
      modifies this, buf
      ensures Valid() && ReaderKept() && (buf == old(buf) || fresh(buf))
      ensures old(CanPut(|text|)) ==>
          lastErr == old(lastErr) && WritePos() == old(WritePos()) + 8 * |text|
          && Written()[old(WritePos())..] == BytesBits(text)
      ensures old(CanPut(|text|) && KeepsFront(|text|)) ==> Written() == old(Written()) + BytesBits(text)
      ensures !old(CanPut(|text|)) ==> lastErr == 1 && Written() == old(Written())
    {
      hide BytesBits;
      ghost var at := writeOff;
      PutBytes(text);
      WrittenIsStored();
      BytesBitsCut(Stored(), at);
    }

    lemma WrittenIsStored()
      requires Valid() && writeBit == 0
      ensures Written() == BytesBits(Stored())
    {
      hide BytesBits;
      BytesBitsCut(buf[..], writeOff);
      assert buf[..][..writeOff] == Stored();
    }

    /** Exactly the given characters, at any bit offset.  Growing with at most one byte written loses what was there. */
    method StoreText(text: seq<byte>)
      requires Valid() && GrowsSafely(|text|)
      modifies this, buf
      ensures Valid() && ReaderKept() && (buf == old(buf) || fresh(buf))
      ensures old(CanPut(|text|)) ==>
          lastErr == old(lastErr) && WritePos() == old(WritePos()) + 8 * |text|
          && Written()[old(WritePos())..] == BytesBits(text)
      ensures old(CanPut(|text|) && KeepsFront(|text|)) ==> Written() == old(Written()) + BytesBits(text)
      ensures !old(CanPut(|text|)) ==> lastErr == 1 && Written() == old(Written())
    {
      hide BytesBits;
      var len := |text|;
      if len > AvailSize() {
        var res := Resize(writeOff + len);
        if res == -1 {
          lastErr := 1;
          return;
        }
      }
      RoomForText(len);
      UStoreText(text);
    }

    lemma RoomForText(len: nat)
      requires Valid() && len <= AvailSize()
      ensures len > 0 ==> writeOff + len + (if writeBit > 0 then 1 else 0) <= size
    {
    }

    method UStoreText(text: seq<byte>)
      requires Valid() && (text != [] ==> writeOff + |text| + (if writeBit > 0 then 1 else 0) <= size)
      modifies this`writeOff, buf
      ensures Valid() && WritePos() == old(WritePos()) + 8 * |text|
      ensures Written() == old(Written()) + BytesBits(text)
    {
      hide BytesBits, ByteBits;
      ghost var pos, first := WritePos(), Written();
      BytesBitsCut(buf[..], 0);
      for idx := 0 to |text|
        invariant Valid() && WritePos() == pos
        invariant BytesBits(buf[..])[..pos + 8 * idx] == first + BytesBits(text[..idx])
      {
        StoreChar(writeOff + idx, text[idx], pos + 8 * idx);
        BytesBitsSnoc(text, idx);
        ConcatAssoc(first, BytesBits(text[..idx]), ByteBits(text[idx]));
      }
      assert text[..|text|] == text;
      writeOff := writeOff + |text|;
    }

    /** One turn of the loop of StoreString. */
    method StoreChar(at: nat, c: byte, ghost pos: nat)
      requires Valid() && at + 2 <= buf.Length && pos == 8 * at + writeBit
      modifies buf
      ensures BytesBits(buf[..])[..pos + 8] == BytesBits(old(buf[..]))[..pos] + ByteBits(c)
    {
      hide BytesBits, ByteBits, WriteChar;
      WriteCharAppends(buf[..], at, writeBit, c, pos);
      WriteCharShape(buf[..], at, writeBit, c);
      var lower := ShiftByteRight(c, 8 - writeBit);
      buf[at] := JoinUpper(buf[at], c, writeBit);
      buf[at + 1] := lower;
    }

    /** One character, put together from the two bytes it lies in. */
    method NextChar() returns (chr: byte)
      requires Valid() && ReadableBits() >= 8
      modifies this`readOff
      ensures Valid() && readOff == old(readOff) + 1
      ensures chr == ByteOf(old(Unread())[..8]) && Unread() == old(Unread())[8..]
    {
      hide BytesBits, ByteBits, ByteOf;
      ghost var bits, pos, unread := BytesBits(buf[..]), ReadPos(), Unread();
      ReadCharValue(buf[..], readOff, readBit, pos);
      chr := OrByte(ShiftByteRight(buf[readOff], readBit), ShiftByteLeft(buf[readOff + 1], 8 - readBit));
      ByteOfInverse(chr);
      WindowOfWindow(bits, 0, Written(), pos, 8, pos);
      WindowOfWindow(Written(), pos, unread, 0, 8, pos);
      readOff := readOff + 1;
    }

    /** Reads characters up to a zero; the terminator is consumed but not returned. */
    method GetString(tgt: seq<byte>) returns (str: seq<byte>)
      requires Valid()
      modifies this`readOff, this`lastErr
      ensures Valid()
      ensures old(ReadableBits()) < 8 ==> str == tgt && ReadPos() == old(ReadPos()) && lastErr == 1
      ensures old(ReadableBits()) >= 8 ==>
          var r := ReadChars(old(Unread()));
          str == r.chars && ReadPos() == old(ReadPos()) + r.consumed && lastErr == if r.ok then old(lastErr) else 1
    {
      hide BytesBits, ByteBits, ReadChars, Prefixed;
      if ReadableBits() < 8 {
        lastErr := 1;
        return tgt;
      }
      ghost var all := Unread();
      NonePrefixed(ReadChars(all));
      str := [];
      while true
        invariant Valid() && readOff >= old(readOff) && ReadableBits() >= 8 && lastErr == old(lastErr)
        invariant ReadChars(all) == Prefixed(str, ReadPos() - old(ReadPos()), ReadChars(Unread()))
        decreases ReadableBits()
      {
        CharStep(str, ReadPos() - old(ReadPos()), Unread());
        var chr := NextChar();
        if chr == 0 {
          return str;
        }
        str := str + [chr];
        if ReadableBits() < 8 {
          CharsEnd(str, ReadPos() - old(ReadPos()), Unread());
          lastErr := 1;
          return str;
        }
      }
    }
  }

  /** Some characters already read, and what follows them. */
  function Prefixed(str: seq<byte>, used: nat, r: CString): CString {
    CString(str + r.chars, used + r.consumed, r.ok)
  }

  lemma NonePrefixed(r: CString)
    ensures Prefixed([], 0, r) == r
  {
  }

  lemma CharStep(str: seq<byte>, used: nat, u: seq<bool>)
    requires |u| >= 8
    ensures var c := ByteOf(u[..8]);
            Prefixed(str, used, ReadChars(u)) ==
                if c == 0 then CString(str, used + 8, true) else Prefixed(str + [c], used + 8, ReadChars(u[8..]))
  {
    hide ReadChars, ByteOf;
    ReadCharsStep(u);
  }

  lemma CharsEnd(str: seq<byte>, used: nat, u: seq<bool>)
    requires |u| < 8
    ensures Prefixed(str, used, ReadChars(u)) == CString(str, used, false)
  {
  }

  lemma SameSlack(aligned: bool, n: nat)
    ensures Slack(aligned, n) == Slack(aligned, n + 32) && Slack(aligned, 0) == 0
  {
  }

  lemma ZerosAre(k: nat)
    ensures ToBits(0, k) == Zeros(k)
  {
    ToBitsZero(k);
  }

  lemma BytesForCases(n: nat)
    ensures 8 * BytesFor(n) == if n % 8 == 0 then n else n - n % 8 + 8
  {
  }

  lemma Pow2Grows(a: nat, b: nat)
    requires a <= b
    ensures Pow2(a) <= Pow2(b)
  {
    hide *;
    Pow2Add(a, b - a);
    MulMono(1, Pow2(b - a), Pow2(a));
  }

  /** A copied buffer with a cleared extension holds the same bits, and no new set ones. */
  lemma GrownBits(a: seq<byte>, b: seq<byte>, room: nat, newRoom: nat, pos: nat)
    requires room <= |a| && room <= newRoom <= |b| && a[..room] == b[..room] && pos <= 8 * room
    requires forall i :: room <= i < newRoom ==> b[i] == 0
    ensures BytesBits(b)[..pos] == BytesBits(a)[..pos]
    ensures (forall i :: pos <= i < 8 * room ==> !BytesBits(a)[i]) ==>
            forall i :: pos <= i < 8 * newRoom ==> !BytesBits(b)[i]
  {
    hide BytesBits;
    SamePrefix(a, b, room, pos);
    SamePrefix(a, b, room, 8 * room);
    ClearBytes(b, room, newRoom);
    forall i | 0 <= i < 8 * room
      ensures BytesBits(b)[i] == BytesBits(a)[i]
    {
      assert BytesBits(b)[i] == BytesBits(b)[..8 * room][i];
      assert BytesBits(a)[i] == BytesBits(a)[..8 * room][i];
    }
  }

  lemma ClearRun(bits: seq<bool>, lo: nat, hi: nat)
    requires lo <= hi <= |bits|
    ensures (forall i :: lo <= i < hi ==> !bits[i]) ==> bits[..hi] == bits[..lo] + Zeros(hi - lo)
  {
  }

  lemma WriteBitsTailClear(bytes: seq<byte>, off: nat, bit: nat, n: nat, d: nat, end: nat)
    requires off + 8 <= |bytes| && bit < 8 && n <= 32 && 8 * off + bit + n <= end <= 8 * |bytes|
    ensures d < Pow2(n) && (forall i :: 8 * off + bit <= i < end ==> !BytesBits(bytes)[i]) ==>
        forall i :: 8 * off + bit + n <= i < end ==> !BytesBits(WriteBits(bytes, off, bit, n, d))[i]
  {
    hide BytesBits, WriteBits, Pow2;
    if d < Pow2(n) {
      forall i | 8 * off + bit + n <= i < end && !BytesBits(bytes)[i]
        ensures !BytesBits(WriteBits(bytes, off, bit, n, d))[i]
      {
        WriteBitsTail(bytes, off, bit, n, d, i);
      }
    }
  }

  lemma StillClear(a: seq<byte>, b: seq<byte>, n: nat, end: nat)
    requires n <= |a| == |b| && a[n..] == b[n..] && 8 * n <= end <= 8 * |a|
    ensures forall i :: 8 * n <= i < end && !BytesBits(a)[i] ==> !BytesBits(b)[i]
  {
    hide BytesBits;
    BytesBitsCut(a, n);
    BytesBitsCut(b, n);
    forall i | 8 * n <= i < end
      ensures BytesBits(a)[i] == BytesBits(b)[i]
    {
      assert BytesBits(a)[i] == BytesBits(a)[8 * n..][i - 8 * n];
      assert BytesBits(b)[i] == BytesBits(b)[8 * n..][i - 8 * n];
    }
  }

  /** The text read from some bits, how many bits it took, and whether a terminator was found. */
  datatype CString = CString(chars: seq<byte>, consumed: nat, ok: bool)

  function ReadChars(u: seq<bool>): CString {
    if |u| < 8 then CString([], 0, false)
    else if ByteOf(u[..8]) == 0 then CString([], 8, true)
    else var r := ReadChars(u[8..]); CString([ByteOf(u[..8])] + r.chars, 8 + r.consumed, r.ok)
  }

  lemma ReadCharsStep(u: seq<bool>)
    requires |u| >= 8
    ensures ByteOf(u[..8]) == 0 ==> ReadChars(u) == CString([], 8, true)
    ensures ByteOf(u[..8]) != 0 ==>
        var r := ReadChars(u[8..]); ReadChars(u) == CString([ByteOf(u[..8])] + r.chars, 8 + r.consumed, r.ok)
  {
  }

  lemma ReadCharsEnd(u: seq<bool>)
    requires |u| < 8
    ensures ReadChars(u) == CString([], 0, false)
  {
  }

  lemma ByteOfInverse(c: byte)
    ensures ByteOf(ByteBits(c)) == c
  {
    ByteOfBits(ByteBits(c));
    ByteBitsInjective(ByteOf(ByteBits(c)), c);
  }

  /** Any text without a zero character reads back, and reading stops just after its terminator. */
  lemma {:induction false} StringRoundTrip(s: seq<byte>, rest: seq<bool>)
    requires 0 !in s
    ensures ReadChars(BytesBits(s + [0]) + rest) == CString(s, 8 * (|s| + 1), true)
  {
    hide BytesBits, ByteBits, ReadChars;
    var t := s + [0];
    var u := BytesBits(t) + rest;
    BytesBitsFirst(t);
    assert u[..8] == ByteBits(t[0]);
    assert u[8..] == BytesBits(t[1..]) + rest;
    ByteOfInverse(t[0]);
    ReadCharsStep(u);
    if s != [] {
      assert t[1..] == s[1..] + [0];
      StringRoundTrip(s[1..], rest);
      assert s == [s[0]] + s[1..];
    }
  }

  lemma BytesBitsSnoc(t: seq<byte>, k: nat)
    requires k < |t|
    ensures BytesBits(t[..k + 1]) == BytesBits(t[..k]) + ByteBits(t[k])
  {
    hide BytesBits, ByteBits;
    assert t[..k + 1] == t[..k] + [t[k]];
    BytesBitsConcat(t[..k], [t[k]]);
    BytesBitsFirst([t[k]]);
  }

  lemma WriteCharShape(bytes: seq<byte>, off: nat, bit: nat, c: byte)
    requires off + 2 <= |bytes| && bit < 8
    ensures WriteChar(bytes, off, bit, c)
            == bytes[off := JoinUpper(bytes[off], c, bit)][off + 1 := ShiftByteRight(c, 8 - bit)]
  {
  }

  lemma WriteBitsShape(bytes: seq<byte>, off: nat, bit: nat, n: nat, d: nat)
    requires off + 8 <= |bytes| && bit < 8
    ensures WriteBits(bytes, off, bit, n, d) ==
            bytes[..off] + PackBytes(MergeWord(LoadWord(bytes, off), bit, n, d)) + bytes[off + 8..]
  {
  }

  lemma {:induction false} ClearBytes(bytes: seq<byte>, lo: nat, hi: nat)
    requires lo <= hi <= |bytes|
    requires forall i :: lo <= i < hi ==> bytes[i] == 0
    ensures forall i :: 8 * lo <= i < 8 * hi ==> !BytesBits(bytes)[i]
    decreases hi - lo
  {
    hide BytesBits, ByteBits;
    if lo < hi {
      ClearBytes(bytes, lo + 1, hi);
      ClearByte(bytes, lo);
    }
  }

  lemma ClearByte(bytes: seq<byte>, k: nat)
    requires k < |bytes| && bytes[k] == 0
    ensures forall i :: 8 * k <= i < 8 * k + 8 ==> !BytesBits(bytes)[i]
  {
    hide BytesBits, ToBits;
    BytesBitsSlice(bytes, k, k + 1);
    assert bytes[k..k + 1] == [0];
    BytesBitsFirst([0]);
    ToBitsZero(OCTET);
    var b := BytesBits(bytes);
    forall i | 8 * k <= i < 8 * k + 8
      ensures !b[i]
    {
      assert b[i] == b[8 * k..8 * (k + 1)][i - 8 * k];
    }
  }

  lemma SamePrefix(a: seq<byte>, b: seq<byte>, n: nat, pos: nat)
    requires n <= |a| && n <= |b| && a[..n] == b[..n] && pos <= 8 * n
    ensures BytesBits(a)[..pos] == BytesBits(b)[..pos]
  {
    hide BytesBits;
    BytesBitsCut(a, n);
    BytesBitsCut(b, n);
    assert BytesBits(a)[..pos] == BytesBits(a)[..8 * n][..pos];
    assert BytesBits(b)[..pos] == BytesBits(b)[..8 * n][..pos];
  }
}
