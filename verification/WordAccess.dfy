/** The unaligned 64-bit reads and writes on which the bit stream is built. */
module WordAccess {
  import opened Bits

  const WORD_BITS: nat := 64

  /** A 64-bit machine word as its bits. */
  type word = b: seq<bool> | |b| == 64 witness Zeros(64)

  function Word(v: nat): word {
    ToBits(v, WORD_BITS)
  }

  function Or(a: word, b: word): word {
    seq(64, i requires 0 <= i < 64 => a[i] || b[i])
  }

  function And(a: word, b: word): word {
    seq(64, i requires 0 <= i < 64 => a[i] && b[i])
  }

  function Not(a: word): word {
    seq(64, i requires 0 <= i < 64 => !a[i])
  }

  function ShiftLeft(a: word, s: nat): word
    requires s <= 64
  {
    Zeros(s) + a[..64 - s]
  }

  function ShiftRight(a: word, s: nat): word
    requires s <= 64
  {
    a[s..] + Zeros(s)
  }

  function LoadWord(bytes: seq<byte>, off: nat): word
    requires off + 8 <= |bytes|
  {
    BytesBits(bytes[off..off + 8])
  }

  function StoreWord(bytes: seq<byte>, off: nat, w: word): (r: seq<byte>)
    requires off + 8 <= |bytes|
    ensures |r| == |bytes|
  {
    bytes[..off] + PackBytes(w) + bytes[off + 8..]
  }

  /** The mask of the low n bits of a 32-bit number, as a word. */
  function BitMask(n: nat): word {
    Word(Pow2(n) - 1)
  }

  /** Put d at bit offset bit of the word w.  Bits of d above the low n are not masked out. */
  function MergeWord(w: word, bit: nat, n: nat, d: nat): word
    requires bit < 8
  {
    Or(ShiftLeft(Word(d), bit), And(w, Not(ShiftLeft(BitMask(n), bit))))
  }

  /** The n bits of w from bit on; the mask is all ones but the lowest, shifted right. */
  function ExtractBits(w: word, bit: nat, n: nat): word
    requires bit < 8 && 1 <= n <= 32
  {
    And(ShiftRight(w, bit), ShiftRight(Not(Word(1)), 64 - n))
  }

  lemma ShiftLeftBit(a: word, s: nat, i: nat)
    requires s <= 64 && i < 64
    ensures ShiftLeft(a, s)[i] == (s <= i && a[i - s])
  {
  }

  lemma BitMaskBit(n: nat, i: nat)
    requires i < 64
    ensures BitMask(n)[i] == (i < n)
  {
    MaskBits(n, WORD_BITS, i);
  }

  lemma WordBit(d: nat, n: nat, i: nat)
    requires n <= 64 && i < 64
    ensures i < n ==> Word(d)[i] == ToBits(d, n)[i]
    ensures n <= i && d < Pow2(n) ==> !Word(d)[i]
  {
    if i < n {
      ToBitsPrefix(d, n, WORD_BITS);
      assert Word(d)[..n][i] == Word(d)[i];
    } else if d < Pow2(n) {
      HighBitsClear(d, n, WORD_BITS, i);
    }
  }

  lemma MergeWordBit(w: word, bit: nat, n: nat, d: nat, i: nat)
    requires bit < 8 && i < 64
    ensures MergeWord(w, bit, n, d)[i] ==
            ((bit <= i && Word(d)[i - bit]) || (w[i] && !(bit <= i && BitMask(n)[i - bit])))
  {
    hide Word, BitMask;
    ShiftLeftBit(Word(d), bit, i);
    ShiftLeftBit(BitMask(n), bit, i);
  }

  lemma MergeWordBits(w: word, bit: nat, n: nat, d: nat, i: nat)
    requires bit < 8 && n <= 32 && i < 64
    ensures i < bit ==> MergeWord(w, bit, n, d)[i] == w[i]
    ensures bit <= i < bit + n ==> MergeWord(w, bit, n, d)[i] == ToBits(d, n)[i - bit]
    ensures bit + n <= i && d < Pow2(n) && !w[i] ==> !MergeWord(w, bit, n, d)[i]
  {
    hide MergeWord, Word, BitMask, ToBits;
    MergeWordBit(w, bit, n, d, i);
    if i >= bit {
      BitMaskBit(n, i - bit);
      WordBit(d, n, i - bit);
    }
  }

  lemma OnlyLowestBit()
    ensures forall i :: 1 <= i < 64 ==> !Word(1)[i]
  {
    assert Pow2(1) - 1 == 1;
    forall i | 1 <= i < 64
      ensures !Word(1)[i]
    {
      BitMaskBit(1, i);
    }
  }

  lemma ExtractedBits(w: word, bit: nat, n: nat, i: nat)
    requires bit < 8 && 1 <= n <= 32 && i < 64
    ensures ExtractBits(w, bit, n)[i] == (i < n && w[bit + i])
  {
    OnlyLowestBit();
    hide Word;
  }

  /** The words of a buffer are windows of its bits. */
  lemma LoadWordBits(bytes: seq<byte>, off: nat)
    requires off + 8 <= |bytes|
    ensures LoadWord(bytes, off) == BytesBits(bytes)[8 * off..8 * off + 64]
  {
    hide BytesBits;
    BytesBitsSlice(bytes, off, off + 8);
  }

  lemma StoreWordBits(bytes: seq<byte>, off: nat, w: word)
    requires off + 8 <= |bytes|
    ensures BytesBits(StoreWord(bytes, off, w)) == BytesBits(bytes)[..8 * off] + w + BytesBits(bytes)[8 * off + 64..]
  {
    hide BytesBits, PackBytes;
    BytesBitsConcat(bytes[..off], PackBytes(w));
    BytesBitsConcat(bytes[..off] + PackBytes(w), bytes[off + 8..]);
    BytesBitsCut(bytes, off);
    BytesBitsCut(bytes, off + 8);
    PackBytesBits(w);
  }

  /** The buffer after the read-modify-write of the 8 bytes at off. */
  function WriteBits(bytes: seq<byte>, off: nat, bit: nat, n: nat, d: nat): (r: seq<byte>)
    requires off + 8 <= |bytes| && bit < 8
    ensures |r| == |bytes|
  {
    StoreWord(bytes, off, MergeWord(LoadWord(bytes, off), bit, n, d))
  }

  /** Writing n bits appends exactly the low n bits of d after the bits already there. */
  lemma WriteBitsAppends(bytes: seq<byte>, off: nat, bit: nat, n: nat, d: nat, pos: nat)
    requires off + 8 <= |bytes| && bit < 8 && n <= 32 && pos == 8 * off + bit
    ensures BytesBits(WriteBits(bytes, off, bit, n, d))[..pos + n] == BytesBits(bytes)[..pos] + ToBits(d, n)
  {
    hide BytesBits, LoadWord, StoreWord, MergeWord, ToBits;
    var w := LoadWord(bytes, off);
    MergedPrefix(w, bit, n, d);
    StoreAppends(bytes, off, MergeWord(w, bit, n, d), bit, ToBits(d, n), pos);
  }

  lemma MergedPrefix(w: word, bit: nat, n: nat, d: nat)
    requires bit < 8 && n <= 32
    ensures MergeWord(w, bit, n, d)[..bit + n] == w[..bit] + ToBits(d, n)
  {
    var m := MergeWord(w, bit, n, d);
    forall i | 0 <= i < bit + n
      ensures m[i] == (w[..bit] + ToBits(d, n))[i]
    {
      MergeWordBits(w, bit, n, d, i);
    }
  }

  lemma StoreAppends(bytes: seq<byte>, off: nat, m: word, bit: nat, d: seq<bool>, pos: nat)
    requires off + 8 <= |bytes| && bit + |d| <= 64 && pos == 8 * off + bit
    requires m[..bit + |d|] == LoadWord(bytes, off)[..bit] + d
    ensures BytesBits(StoreWord(bytes, off, m))[..pos + |d|] == BytesBits(bytes)[..pos] + d
  {
    hide BytesBits, LoadWord, StoreWord;
    LoadWordBits(bytes, off);
    StoreWordBits(bytes, off, m);
    ReplaceWindow(BytesBits(bytes), 8 * off, LoadWord(bytes, off), m, bit, d, pos, pos + |d|);
  }

  lemma ReplaceWindow(was: seq<bool>, at: nat, w: seq<bool>, m: seq<bool>, bit: nat, d: seq<bool>, from: nat, to: nat)
    requires at + |w| <= |was| && was[at..at + |w|] == w && |m| == |w| && bit + |d| <= |w|
    requires m[..bit + |d|] == w[..bit] + d && from == at + bit && to == from + |d|
    ensures (was[..at] + m + was[at + |w|..])[..to] == was[..from] + d
  {
    WindowOfWindow(was, at, w, 0, bit, at);
    assert was[..from] == was[..at] + w[..bit];
    assert (was[..at] + m + was[at + |w|..])[..to] == was[..at] + m[..bit + |d|];
  }

  lemma WindowOfWindow<T>(s: seq<T>, at: nat, w: seq<T>, lo: nat, n: nat, from: nat)
    requires at + |w| <= |s| && w == s[at..at + |w|] && lo + n <= |w| && from == at + lo
    ensures w[lo..lo + n] == s[from..from + n]
  {
    var x, y := w[lo..lo + n], s[from..from + n];
    forall i | 0 <= i < n
      ensures x[i] == y[i]
    {
      assert x[i] == w[lo + i];
    }
  }

  /** If d fits in n bits, no clear bit after the new end becomes set. */
  lemma WriteBitsTail(bytes: seq<byte>, off: nat, bit: nat, n: nat, d: nat, i: nat)
    requires off + 8 <= |bytes| && bit < 8 && n <= 32 && d < Pow2(n)
    requires 8 * off + bit + n <= i < 8 * |bytes| && !BytesBits(bytes)[i]
    ensures !BytesBits(WriteBits(bytes, off, bit, n, d))[i]
  {
    hide BytesBits, StoreWord, LoadWord, MergeWord;
    var w := LoadWord(bytes, off);
    LoadWordBits(bytes, off);
    StoreWordBits(bytes, off, MergeWord(w, bit, n, d));
    if i < 8 * off + 64 {
      MergeWordBits(w, bit, n, d, i - 8 * off);
    }
  }

  /** The number held by the n bits at bit offset bit of the word at off. */
  function ReadBits(bytes: seq<byte>, off: nat, bit: nat, n: nat): nat
    requires off + 8 <= |bytes| && bit < 8 && 1 <= n <= 32
  {
    FromBits(ExtractBits(LoadWord(bytes, off), bit, n))
  }

  lemma ReadBitsValue(bytes: seq<byte>, off: nat, bit: nat, n: nat, pos: nat)
    requires off + 8 <= |bytes| && bit < 8 && 1 <= n <= 32 && pos == 8 * off + bit
    ensures ReadBits(bytes, off, bit, n) == FromBits(BytesBits(bytes)[pos..pos + n])
  {
    hide BytesBits, LoadWord, FromBits, ExtractBits;
    var w := LoadWord(bytes, off);
    ExtractedWindow(w, bit, n);
    FromBitsZeroTail(w[bit..bit + n], 64 - n);
    LoadWordBits(bytes, off);
    WindowOfWindow(BytesBits(bytes), 8 * off, w, bit, n, pos);
  }

  lemma ExtractedWindow(w: word, bit: nat, n: nat)
    requires bit < 8 && 1 <= n <= 32
    ensures ExtractBits(w, bit, n) == w[bit..bit + n] + Zeros(64 - n)
  {
    var x := ExtractBits(w, bit, n);
    forall i | 0 <= i < 64
      ensures x[i] == (w[bit..bit + n] + Zeros(64 - n))[i]
    {
      ExtractedBits(w, bit, n, i);
    }
  }

  lemma {:induction false} FromBitsZeroTail(b: seq<bool>, k: nat)
    ensures FromBits(b + Zeros(k)) == FromBits(b)
  {
    var z := Zeros(k);
    if b == [] {
      assert b + z == z;
      FromBitsZero(k);
    } else {
      assert (b + z)[1..] == b[1..] + z;
      FromBitsZeroTail(b[1..], k);
    }
  }

  lemma {:induction false} FromBitsZero(k: nat)
    ensures FromBits(Zeros(k)) == 0
  {
    if k > 0 {
      FromBitsZero(k - 1);
      assert Zeros(k)[1..] == Zeros(k - 1);
    }
  }

  // ---- byte operators ----

  function ByteOf(b: seq<bool>): byte
    requires |b| == 8
  {
    assert Pow2(|b|) == 256;
    FromBits(b)
  }

  lemma ByteOfBits(b: seq<bool>)
    requires |b| == 8
    ensures ByteBits(ByteOf(b)) == b
  {
    ToFromBits(b);
  }

  function OrByte(a: byte, b: byte): byte {
    ByteOf(seq(8, i requires 0 <= i < 8 => ByteBits(a)[i] || ByteBits(b)[i]))
  }

  function AndByte(a: byte, b: byte): byte {
    ByteOf(seq(8, i requires 0 <= i < 8 => ByteBits(a)[i] && ByteBits(b)[i]))
  }

  function ShiftByteRight(a: byte, s: nat): byte
    requires s <= 8
  {
    ByteOf(ByteBits(a)[s..] + Zeros(s))
  }

  /** Shifted left in a wider type and truncated back to a byte. */
  function ShiftByteLeft(a: byte, s: nat): byte
    requires s <= 8
  {
    ByteOf(Zeros(s) + ByteBits(a)[..8 - s])
  }

  /** The byte that keeps the low bits of b and takes its high bits from the start of c. */
  function JoinUpper(b: byte, c: byte, bit: nat): byte
    requires bit < 8
  {
    OrByte(AndByte(b, ShiftByteRight(255, 8 - bit)), ShiftByteLeft(c, bit))
  }

  lemma JoinUpperBits(b: byte, c: byte, bit: nat)
    requires bit < 8
    ensures ByteBits(JoinUpper(b, c, bit)) == ByteBits(b)[..bit] + ByteBits(c)[..8 - bit]
  {
    hide ByteBits, ByteOf;
    var mask, upper := ShiftByteRight(255, 8 - bit), ShiftByteLeft(c, bit);
    AllSet();
    ByteOfBits(ByteBits(255)[8 - bit..] + Zeros(8 - bit));
    ByteOfBits(Zeros(bit) + ByteBits(c)[..8 - bit]);
    ByteOfBits(seq(8, i requires 0 <= i < 8 => ByteBits(b)[i] && ByteBits(mask)[i]));
    ByteOfBits(seq(8, i requires 0 <= i < 8 => ByteBits(AndByte(b, mask))[i] || ByteBits(upper)[i]));
  }

  lemma AllSet()
    ensures forall i :: 0 <= i < 8 ==> ByteBits(255)[i]
  {
    assert Pow2(8) == 256;
    forall i | 0 <= i < 8
      ensures ByteBits(255)[i]
    {
      MaskBits(8, OCTET, i);
    }
  }

  /** The buffer after one turn of the string-storing loop. */
  function WriteChar(bytes: seq<byte>, off: nat, bit: nat, c: byte): (r: seq<byte>)
    requires off + 2 <= |bytes| && bit < 8
    ensures |r| == |bytes|
  {
    bytes[off := JoinUpper(bytes[off], c, bit)][off + 1 := ShiftByteRight(c, 8 - bit)]
  }

  lemma WriteCharAppends(bytes: seq<byte>, off: nat, bit: nat, c: byte, pos: nat)
    requires off + 2 <= |bytes| && bit < 8 && pos == 8 * off + bit
    ensures BytesBits(WriteChar(bytes, off, bit, c))[..pos + 8] == BytesBits(bytes)[..pos] + ByteBits(c)
  {
    hide *;
    WriteCharBytes(bytes, off, bit, c);
    TwoBytesAppend(bytes, WriteChar(bytes, off, bit, c), off, bit, ByteBits(c), pos);
  }

  lemma TwoBytesAppend(a: seq<byte>, b: seq<byte>, off: nat, bit: nat, c: seq<bool>, pos: nat)
    requires off + 2 <= |a| == |b| && bit < 8 && pos == 8 * off + bit && |c| == 8 && a[..off] == b[..off]
    requires ByteBits(b[off]) == ByteBits(a[off])[..bit] + c[..8 - bit]
    requires ByteBits(b[off + 1]) == c[8 - bit..] + Zeros(8 - bit)
    ensures BytesBits(b)[..pos + 8] == BytesBits(a)[..pos] + c
  {
    hide *;
    var at := 8 * off;
    assert |BytesBits(a)| == 8 * |a| == |BytesBits(b)|;
    BytesLayout(a, b, off, at);
    PieceTogether(BytesBits(a), BytesBits(b), at, bit, ByteBits(a[off]), c, pos);
  }

  lemma BytesLayout(a: seq<byte>, b: seq<byte>, off: nat, at: nat)
    requires off + 2 <= |a| == |b| && a[..off] == b[..off] && at == 8 * off
    ensures BytesBits(b)[..at] == BytesBits(a)[..at]
    ensures BytesBits(a)[at..at + 8] == ByteBits(a[off])
    ensures BytesBits(b)[at..at + 8] == ByteBits(b[off])
    ensures BytesBits(b)[at + 8..at + 16] == ByteBits(b[off + 1])
  {
    hide *;
    BytesBitsCut(a, off);
    BytesBitsCut(b, off);
    ByteAt(a, off);
    ByteAt(b, off);
    ByteAt(b, off + 1);
  }

  lemma WriteCharBytes(bytes: seq<byte>, off: nat, bit: nat, c: byte)
    requires off + 2 <= |bytes| && bit < 8
    ensures var r := WriteChar(bytes, off, bit, c);
            && r[..off] == bytes[..off] && r[off + 2..] == bytes[off + 2..]
            && ByteBits(r[off]) == ByteBits(bytes[off])[..bit] + ByteBits(c)[..8 - bit]
            && ByteBits(r[off + 1]) == ByteBits(c)[8 - bit..] + Zeros(8 - bit)
  {
    hide ByteBits, ByteOf, JoinUpper;
    JoinUpperBits(bytes[off], c, bit);
    ByteOfBits(ByteBits(c)[8 - bit..] + Zeros(8 - bit));
  }

  lemma ByteAt(bytes: seq<byte>, k: nat)
    requires k < |bytes|
    ensures BytesBits(bytes)[8 * k..8 * k + 8] == ByteBits(bytes[k])
  {
    hide BytesBits, ByteBits;
    BytesBitsSlice(bytes, k, k + 1);
    assert bytes[k..k + 1] == [bytes[k]];
    BytesBitsFirst([bytes[k]]);
    assert BytesBits([]) == [];
  }

  lemma PieceTogether(was: seq<bool>, out: seq<bool>, at: nat, bit: nat, o: seq<bool>, c: seq<bool>, pos: nat)
    requires at + 16 <= |was| == |out| && bit < 8 && |c| == 8 && pos == at + bit
    requires out[..at] == was[..at] && was[at..at + 8] == o
    requires out[at..at + 8] == o[..bit] + c[..8 - bit]
    requires out[at + 8..at + 16] == c[8 - bit..] + Zeros(8 - bit)
    ensures out[..pos + 8] == was[..pos] + c
  {
    forall i | 0 <= i < pos + 8
      ensures out[i] == (was[..pos] + c)[i]
    {
      if i < at {
        assert out[i] == out[..at][i] && was[i] == was[..at][i];
      } else if i < at + 8 {
        assert out[i] == out[at..at + 8][i - at] && was[i] == o[i - at];
      } else {
        assert out[i] == out[at + 8..at + 16][i - at - 8];
      }
    }
  }

  /** The character at a bit offset, assembled from two neighbouring bytes. */
  function ReadChar(bytes: seq<byte>, off: nat, bit: nat): byte
    requires off + 2 <= |bytes| && bit < 8
  {
    OrByte(ShiftByteRight(bytes[off], bit), ShiftByteLeft(bytes[off + 1], 8 - bit))
  }

  lemma ReadCharValue(bytes: seq<byte>, off: nat, bit: nat, pos: nat)
    requires off + 2 <= |bytes| && bit < 8 && pos == 8 * off + bit
    ensures ByteBits(ReadChar(bytes, off, bit)) == BytesBits(bytes)[pos..pos + 8]
  {
    hide BytesBits, ByteBits, ByteOf;
    var lo, hi := ShiftByteRight(bytes[off], bit), ShiftByteLeft(bytes[off + 1], 8 - bit);
    ByteOfBits(ByteBits(bytes[off])[bit..] + Zeros(bit));
    ByteOfBits(Zeros(8 - bit) + ByteBits(bytes[off + 1])[..8 - (8 - bit)]);
    ByteOfBits(seq(8, i requires 0 <= i < 8 => ByteBits(lo)[i] || ByteBits(hi)[i]));
    ByteAt(bytes, off);
    ByteAt(bytes, off + 1);
    var b, c := BytesBits(bytes), ByteBits(ReadChar(bytes, off, bit));
    forall i | 0 <= i < 8
      ensures c[i] == b[pos..pos + 8][i]
    {
      if i < 8 - bit {
        assert b[pos + i] == b[8 * off..8 * off + 8][bit + i];
      } else {
        assert b[pos + i] == b[8 * (off + 1)..8 * (off + 1) + 8][bit + i - 8];
      }
    }
  }
}
