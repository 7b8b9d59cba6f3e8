/** Part names on the wire: an index into the string table when there is one, otherwise the characters. */
module PartNames {
  import opened Bits
  import opened Options
  import opened BitStreams
  import opened StringTables
  import opened WordAccess
  import Packed = PackedCode

  const INDEX_BITS: nat := 12

  /** The value the packer is left with: the slot plus one on a hit, but the bare slot on a miss. */
  ghost function CacheIdx(h: Hashing, t: seq<Entry>, str: Str): nat
    requires t != [] && (0 < |str| < LONG ==> Stops(h, t, str))
  {
    if str == [] then 0
    else
      var f := Find(h, t, str);
      if f.res != 0 then f.index + 1 else f.index
  }

  /** Whether the characters are sent, rather than an index. */
  ghost predicate SentAsText(h: Hashing, t: seq<Entry>, str: Str)
    requires t != [] && (0 < |str| < LONG ==> Stops(h, t, str))
  {
    CacheIdx(h, t, str) == 0 && str != []
  }

  /** The characters are sent without a terminator. */
  ghost function PartBits(h: Hashing, t: seq<Entry>, str: Str): seq<bool>
    requires t != [] && |t| <= LARGEST && (0 < |str| < LONG ==> Stops(h, t, str))
  {
    CacheBound(h, t, str);
    if SentAsText(h, t, str) then [false] + BytesBits(str) else [true] + Packed.Encode(CacheIdx(h, t, str), INDEX_BITS)
  }

  lemma CacheBound(h: Hashing, t: seq<Entry>, str: Str)
    requires t != [] && |t| <= LARGEST && (0 < |str| < LONG ==> Stops(h, t, str))
    ensures CacheIdx(h, t, str) <= LARGEST
  {
    hide Chain;
    if 0 < |str| < LONG {
      var n: nat :| FirstStop(h, t, str, n);
      FindIs(h, t, str, n);
    }
  }

  function KeyAt(t: seq<Entry>, idx: int): Option<Str> {
    if 0 <= idx - 1 < |t| && t[idx - 1].keyHash != 0 then Some(t[idx - 1].key) else None
  }

  /** A 32-bit value as a signed integer. */
  function ToInt32(v: u32): int {
    if v < 0x8000_0000 then v else v - 0x1_0000_0000
  }

  datatype PartRead = PartRead(str: Str, consumed: nat)

  function ReadPart(t: seq<Entry>, b: seq<bool>): PartRead {
    if b == [] || b[0] then
      var rest := if b == [] then b else b[1..];
      var d := Packed.Decode(rest, INDEX_BITS, 0);
      var kv := KeyAt(t, ToInt32(d.value));
      PartRead(if kv.Some? then kv.value else [], |b| - |rest| + d.consumed)
    else
      var r := ReadChars(b[1..]);
      PartRead(r.chars, 1 + r.consumed)
  }

  /** When the characters are sent: the name is too long to look up, or unknown and its search ended at free slot 0. */
  lemma TextWhen(h: Hashing, t: seq<Entry>, str: Str)
    requires TableOk(h, t) && (0 < |str| < LONG ==> Stops(h, t, str))
    ensures SentAsText(h, t, str) <==>
      str != [] && (|str| >= 4096 || (str !in Keys(t) && Find(h, t, str).res == 0 && Find(h, t, str).index == 0))
  {
    hide Chain, Find, Keys, TableOk;
    SizeBound(h, t);
    if 0 < |str| < LONG { HitOrMiss(h, t, str); }
    if |str| >= LONG { LongLookup(h, t, str); }
  }

  lemma LongLookup(h: Hashing, t: seq<Entry>, str: Str)
    requires t != [] && |str| >= LONG
    ensures Find(h, t, str) == Lookup(0, 0, 0)
  {
  }

  /**
   * A name sent as an index is read up to where the writer stopped, and comes back exactly if it is empty or in the
   * table: the slot of a miss is taken for an index.  A name sent as characters comes back exactly if fewer than eight
   * bits follow it or the next eight are zero, and the reader stops where the writer stopped only in the first case.
   */
  lemma PackUnpack(h: Hashing, t: seq<Entry>, str: Str, rest: seq<bool>)
    requires TableOk(h, t) && |t| < LARGEST && 0 !in str && (0 < |str| < LONG ==> Stops(h, t, str))
    ensures var code := PartBits(h, t, str);
            var r := ReadPart(t, code + rest);
            if SentAsText(h, t, str)
            then (r.str == str <==> |rest| < 8 || ByteOf(rest[..8]) == 0) && (r.consumed == |code| <==> |rest| < 8)
            else (r.str == str <==> str == [] || str in Keys(t)) && r.consumed == |code|
  {
    SizeBound(h, t);
    hide Chain, Packed.Encode, BytesBits, TableOk, Find, ReadPart, Keys;
    CacheBound(h, t, str);
    if SentAsText(h, t, str) {
      TextBack(t, str, rest);
    } else {
      if 0 < |str| < LONG { HitOrMiss(h, t, str); }
      if |str| >= LONG { LongLookup(h, t, str); }
      IndexBack(t, CacheIdx(h, t, str), rest);
    }
  }

  lemma IndexBack(t: seq<Entry>, idx: nat, rest: seq<bool>)
    requires idx < LARGEST
    ensures var code := [true] + Packed.Encode(idx, INDEX_BITS);
            ReadPart(t, code + rest) == PartRead(if KeyAt(t, idx).Some? then KeyAt(t, idx).value else [], |code|)
  {
    hide Packed.Encode, Packed.Decode;
    var b := [true] + Packed.Encode(idx, INDEX_BITS) + rest;
    assert b[1..] == Packed.Encode(idx, INDEX_BITS) + rest;
    Packed.RoundTrip(idx, INDEX_BITS, 0, rest);
  }

  lemma TextBack(t: seq<Entry>, str: Str, rest: seq<bool>)
    requires 0 !in str
    ensures var code := [false] + BytesBits(str);
            var r := ReadPart(t, code + rest);
            (r.str == str <==> |rest| < 8 || ByteOf(rest[..8]) == 0) && (r.consumed == |code| <==> |rest| < 8)
  {
    hide BytesBits, ReadChars, ByteOf;
    var b := [false] + BytesBits(str) + rest;
    assert b[1..] == BytesBits(str) + rest;
    CharsThenRest(str, rest);
    RestChars(str, rest);
  }

  /** Without a terminator the reader goes on into what follows. */
  lemma {:induction false} CharsThenRest(str: Str, rest: seq<bool>)
    requires 0 !in str
    ensures ReadChars(BytesBits(str) + rest) == Prefixed(str, 8 * |str|, ReadChars(rest))
  {
    hide BytesBits, ByteBits, ReadChars, ByteOf;
    var u := BytesBits(str) + rest;
    if str == [] {
      assert BytesBits(str) == [];
      assert u == rest;
    } else {
      BytesBitsFirst(str);
      assert u[..8] == ByteBits(str[0]) && u[8..] == BytesBits(str[1..]) + rest;
      ByteOfInverse(str[0]);
      ReadCharsStep(u);
      CharsThenRest(str[1..], rest);
      assert str == [str[0]] + str[1..];
    }
  }

  lemma RestChars(str: Str, rest: seq<bool>)
    ensures var r := ReadChars(rest);
            && (str + r.chars == str <==> |rest| < 8 || ByteOf(rest[..8]) == 0)
            && (r.consumed == 0 <==> |rest| < 8)
  {
    hide ByteOf, ReadChars;
    if |rest| >= 8 { ReadCharsStep(rest); } else { ReadCharsEnd(rest); }
    assert |str + ReadChars(rest).chars| == |str| + |ReadChars(rest).chars|;
  }

  /** The key at a hit is the name; the slot of a miss, or of a chain that ended, leads to another one. */
  lemma HitOrMiss(h: Hashing, t: seq<Entry>, str: Str)
    requires TableOk(h, t) && 0 < |str| < LONG && Stops(h, t, str)
    ensures var f := Find(h, t, str);
            && f.index < |t|
            && if str in Keys(t) then f.res == 1 && KeyAt(t, f.index + 1) == Some(str)
               else f.res != 1 && (f.res != 0 ==> f.index == 0)
                    && KeyAt(t, if f.res != 0 then f.index + 1 else f.index) != Some(str)
  {
    hide Chain, FirstStop, Find;
    if str in Keys(t) {
      var i: nat :| i < |t| && Occupied(t, i) && t[i].key == str;
      FindPresent(h, t, i);
    } else {
      Missed(h, t, str);
      NotAKey(t, str, if Find(h, t, str).res != 0 then 1 else Find(h, t, str).index);
    }
  }

  lemma Missed(h: Hashing, t: seq<Entry>, str: Str)
    requires t != [] && |str| < LONG && Stops(h, t, str) && str !in Keys(t)
    ensures var f := Find(h, t, str); f.index < |t| && f.res != 1 && (f.res != 0 ==> f.index == 0)
  {
    hide Chain;
    var n: nat :| FirstStop(h, t, str, n);
    FindIs(h, t, str, n);
    NotAKey(t, str, Chain(h, str, n) % |t| + 1);
  }

  lemma NotAKey(t: seq<Entry>, str: Str, idx: int)
    requires str !in Keys(t)
    ensures KeyAt(t, idx) != Some(str)
  {
    if 0 <= idx - 1 < |t| && t[idx - 1].keyHash != 0 { assert Occupied(t, idx - 1); }
  }

  method PackPartname(m: CoXHashMap, str: Str, bs: BitStream)
    requires TableOk(m.h, m.storage) && (0 < |str| < LONG ==> Stops(m.h, m.storage, str)) && 0 !in str
    requires bs.Roomy(97) && bs.writeOff > 1 && bs.writeOff + |str| + 2 < GROWTH_LIMIT
    modifies bs, bs.buf
    ensures bs.Valid() && bs.ReaderKept() && (bs.buf == old(bs.buf) || fresh(bs.buf))
    ensures bs.Written() == old(bs.Written()) + PartBits(m.h, m.storage, str)
  {
    hide Chain, Packed.Encode, BytesBits, Find;
    SizeBound(m.h, m.storage);
    hide TableOk;
    CacheBound(m.h, m.storage, str);
    var cacheIdx: nat := 0;
    if str != [] {
      var res, index, prevVal := m.FindIndex(str);
      cacheIdx := if res != 0 then index + 1 else index;
    }
    ghost var before := bs.Written();
    var inCache := cacheIdx != 0 || str == [];
    StoreFlag(bs, inCache);
    if inCache {
      bs.StorePackedBits(INDEX_BITS, cacheIdx);
      ConcatAssoc(before, [true], Packed.Encode(cacheIdx, INDEX_BITS));
    } else {
      bs.StoreView(str);
      ConcatAssoc(before, [false], BytesBits(str));
    }
  }

  lemma SizeBound(h: Hashing, t: seq<Entry>)
    requires TableOk(h, t)
    ensures 0 < |t| <= LARGEST
  {
  }

  method StoreFlag(bs: BitStream, flag: bool)
    requires bs.Roomy(96)
    modifies bs, bs.buf
    ensures bs.Valid() && bs.ReaderKept() && (bs.buf == old(bs.buf) || fresh(bs.buf)) && bs.size >= 8
    ensures bs.Written() == old(bs.Written()) + [flag] && bs.WritePos() == old(bs.WritePos()) + 1
  {
    hide BytesBits;
    var one: u32 := if flag then 1 else 0;
    assert ToBits(one, 1) == [flag] by { assert ToBits(0, 0) == []; }
    bs.StoreBits(1, one);
  }

  method UnpackPartname(m: CoXHashMap, bs: BitStream) returns (tgt: Str)
    requires bs.Valid() && !bs.byteAligned
    modifies bs`readOff, bs`readBit, bs`lastErr
    ensures bs.Valid()
    ensures var r := ReadPart(m.storage, old(bs.Unread()));
            tgt == r.str && bs.ReadPos() == old(bs.ReadPos()) + r.consumed
  {
    hide BytesBits, FromBits, Packed.Decode, ReadChars;
    ghost var u := bs.Unread();
    if u != [] { assert u[..1] == [u[0]] && FromBits([u[0]]) == if u[0] then 1 else 0 by { FlagValue(u[0]); } }
    tgt := [];
    var bit := bs.GetBits(1);
    ghost var rest := if u == [] then u else u[1..];
    assert bs.Unread() == rest;
    if bit != 0 {
      var idx := bs.GetPackedBits(INDEX_BITS);
      var kv := m.KeyForIdx(ToInt32(idx));
      if kv.Some? {
        tgt := kv.value;
      }
      return;
    }
    tgt := bs.GetString(tgt);
    if |rest| < 8 { ReadCharsEnd(rest); }
  }

  lemma FlagValue(b: bool)
    ensures FromBits([b]) == if b then 1 else 0
  {
    assert FromBits([]) == 0;
  }
}
