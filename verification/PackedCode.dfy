/** The variable-length integer code of StorePackedBits and GetPackedBits, on bit sequences. */
module PackedCode {
  import opened Bits

  const UINT32_BITS: nat := 32
  const MINUS_ONE: u32 := 0xFFFF_FFFF

  function Ones(n: nat): (r: seq<bool>)
    ensures |r| == n
  {
    seq(n, _ => true)
  }

  /** The largest number of n bits. */
  function Mask(n: nat): nat {
    Pow2(n) - 1
  }

  function NextWidth(n: nat): nat {
    if 2 * n < UINT32_BITS then 2 * n else UINT32_BITS
  }

  /** All-ones groups of growing width, each worth its mask, then the remainder. */
  function Encode(v: u32, n: nat): seq<bool>
    requires 1 <= n <= UINT32_BITS
    decreases UINT32_BITS - n
  {
    if n < UINT32_BITS && v >= Mask(n)
    then Ones(n) + Encode(v - (Mask(n)), NextWidth(n))
    else ToBits(v, n)
  }

  lemma EncodeMore(v: u32, n: nat)
    requires 1 <= n < UINT32_BITS && v >= Mask(n)
    ensures Encode(v, n) == ToBits(Mask(n), n) + Encode(v - Mask(n), NextWidth(n))
  {
    hide ToBits;
    OnesBits(n);
  }

  lemma EncodeLast(v: u32, n: nat)
    requires 1 <= n <= UINT32_BITS && (n == UINT32_BITS || v < Mask(n))
    ensures Encode(v, n) == ToBits(v, n)
  {
  }

  lemma OnesBits(n: nat)
    ensures ToBits(Mask(n), n) == Ones(n)
  {
    OnesValue(n);
    ToFromBits(Ones(n));
  }

  datatype Decoded = Decoded(value: u32, consumed: nat)

  /** One read of n bits: all ones, without moving, when fewer than n are left. */
  function ReadGroup(b: seq<bool>, n: nat): (r: Decoded)
    requires n <= UINT32_BITS
    ensures r.consumed <= |b|
  {
    Pow2Limit(n);
    if n <= |b| then Decoded(FromBits(b[..n]), n) else Decoded(MINUS_ONE, 0)
  }

  /** What the reader returns, and how far it moves, on the unread bits b. */
  function Decode(b: seq<bool>, n: nat, acc: u32): (r: Decoded)
    requires 1 <= n <= UINT32_BITS
    ensures r.consumed <= |b|
    decreases UINT32_BITS - n
  {
    if b == [] then Decoded(MINUS_ONE, 0)
    else
      var g := ReadGroup(b, n);
      if g.value < Mask(n) || n == UINT32_BITS then
        Decoded(Wrap32(g.value + acc), g.consumed)
      else
        var r := Decode(b[g.consumed..], NextWidth(n), Wrap32(acc + Mask(n)));
        Decoded(r.value, g.consumed + r.consumed)
  }

  lemma Pow2Value32()
    ensures Pow2(UINT32_BITS) == 0x1_0000_0000
  {
    assert Pow2(8) == 0x100;
    Pow2Add(8, 8);
    Pow2Add(16, 16);
  }

  lemma {:induction false} Pow2Limit(n: nat)
    requires n <= UINT32_BITS
    ensures Pow2(n) <= 0x1_0000_0000
  {
    Pow2Value32();
    Pow2Add(n, UINT32_BITS - n);
    MulMono(1, Pow2(UINT32_BITS - n), Pow2(n));
  }

  lemma {:induction false} OnesValue(n: nat)
    ensures FromBits(Ones(n)) == Mask(n)
  {
    if n > 0 {
      assert Ones(n)[1..] == Ones(n - 1);
      OnesValue(n - 1);
    }
  }

  lemma GroupReadBack(v: u32, n: nat, rest: seq<bool>)
    requires 1 <= n <= UINT32_BITS && v < Pow2(n)
    ensures ReadGroup(ToBits(v, n) + rest, n) == Decoded(v, n)
  {
    hide ToBits, FromBits, Pow2;
    assert (ToBits(v, n) + rest)[..n] == ToBits(v, n);
    FromToBits(v, n);
    ModUnique(v, Pow2(n), 0, v);
  }

  lemma MaskLimit(n: nat)
    requires n <= UINT32_BITS
    ensures Mask(n) <= MINUS_ONE
  {
    Pow2Limit(n);
  }

  /** One turn of the reading loop. */
  lemma DecodeStep(b: seq<bool>, n: nat, acc: u32)
    requires 1 <= n <= UINT32_BITS && b != []
    ensures var g := ReadGroup(b, n);
            if g.value < Mask(n) || n == UINT32_BITS
                then Decode(b, n, acc) == Decoded(Wrap32(g.value + acc), g.consumed)
            else var r := Decode(b[g.consumed..], NextWidth(n), Wrap32(acc + Mask(n)));
                 Decode(b, n, acc) == Decoded(r.value, g.consumed + r.consumed)
  {
  }

  lemma OnesReadBack(n: nat, rest: seq<bool>)
    requires 1 <= n <= UINT32_BITS
    ensures Mask(n) <= MINUS_ONE
    ensures ReadGroup(Ones(n) + rest, n) == Decoded(Mask(n), n) && (Ones(n) + rest)[n..] == rest
  {
    hide FromBits;
    MaskLimit(n);
    assert (Ones(n) + rest)[..n] == Ones(n);
    OnesValue(n);
  }

  /** Reading back a code returns the value and stops exactly at its end, whatever follows. */
  lemma {:induction false} RoundTrip(v: u32, n: nat, acc: nat, rest: seq<bool>)
    requires 1 <= n <= UINT32_BITS && v + acc < 0x1_0000_0000
    ensures Decode(Encode(v, n) + rest, n, acc) == Decoded(v + acc, |Encode(v, n)|)
    decreases UINT32_BITS - n
  {
    hide ReadGroup, Mask, ToBits, Ones, Decode;
    var m := Mask(n);
    DecodeStep(Encode(v, n) + rest, n, acc);
    if n < UINT32_BITS && v >= m {
      var tail := Encode(v - m, NextWidth(n));
      ConcatAssoc(Ones(n), tail, rest);
      OnesReadBack(n, tail + rest);
      RoundTrip(v - m, NextWidth(n), acc + m, rest);
    } else {
      LastGroup(v, n);
      GroupReadBack(v, n, rest);
    }
  }

  lemma LastGroup(v: u32, n: nat)
    requires 1 <= n <= UINT32_BITS && (n == UINT32_BITS || v < Mask(n))
    ensures v < Pow2(n)
  {
    Pow2Value32();
  }

  /** No code is a prefix of another one of the same start width. */
  lemma PrefixFree(v: u32, w: u32, n: nat)
    requires 1 <= n <= UINT32_BITS && Encode(v, n) <= Encode(w, n)
    ensures v == w
  {
    RoundTrip(v, n, 0, Encode(w, n)[|Encode(v, n)|..]);
    RoundTrip(w, n, 0, []);
    assert Encode(v, n) + Encode(w, n)[|Encode(v, n)|..] == Encode(w, n) == Encode(w, n) + [];
  }

  /** The weight of the all-ones groups from width n up to the last width. */
  function GroupWeight(n: nat): nat
    requires 1 <= n <= UINT32_BITS
    decreases UINT32_BITS - n
  {
    if n == UINT32_BITS then 0 else Mask(n) + GroupWeight(NextWidth(n))
  }

  /** A reader cut short inside a group does not return -1: it adds the weight of the widths it skipped. */
  lemma {:induction false} CutInsideGroup(b: seq<bool>, n: nat, acc: u32)
    requires 1 <= n <= UINT32_BITS && 0 < |b| < n
    ensures Decode(b, n, acc) == Decoded(Wrap32(MINUS_ONE + acc + GroupWeight(n)), 0)
    decreases UINT32_BITS - n
  {
    hide Mask, FromBits, Decode, Wrap32;
    DecodeStep(b, n, acc);
    MaskLimit(n);
    if n < UINT32_BITS {
      var acc' := Wrap32(acc + Mask(n));
      assert b[0..] == b;
      CutInsideGroup(b, NextWidth(n), acc');
      Wrap32Add(acc + Mask(n), MINUS_ONE + GroupWeight(NextWidth(n)));
    }
  }

  /**
   * Every proper prefix of a code reads as -1 at a group boundary and as the fixed number GroupWeight(n) - 1 inside a
   * group.
   */
  lemma {:induction false} Truncated(v: u32, n: nat, acc: nat, k: nat)
    requires 1 <= n <= UINT32_BITS && v + acc < 0x1_0000_0000 && k < |Encode(v, n)|
    ensures var r := Decode(Encode(v, n)[..k], n, acc);
            r.value == MINUS_ONE || r.value == Wrap32(MINUS_ONE + acc + GroupWeight(n))
    decreases UINT32_BITS - n
  {
    hide Mask, ToBits, Ones, ReadGroup, Decode;
    var b := Encode(v, n)[..k];
    if 0 < k < n {
      CutInsideGroup(b, n, acc);
    } else if k > 0 {
      var m := Mask(n);
      assert n < UINT32_BITS && v >= m;
      var tail := Encode(v - m, NextWidth(n))[..k - n];
      assert b == Ones(n) + tail;
      OnesReadBack(n, tail);
      DecodeStep(b, n, acc);
      Truncated(v - m, NextWidth(n), acc + m, k - n);
    } else {
      assert b == [];
      NothingLeft(n, acc);
    }
  }

  lemma NothingLeft(n: nat, acc: u32)
    requires 1 <= n <= UINT32_BITS
    ensures Decode([], n, acc) == Decoded(MINUS_ONE, 0)
  {
  }

  lemma {:induction false} CodeLength(v: u32, n: nat)
    requires 1 <= n <= UINT32_BITS
    ensures n <= |Encode(v, n)| <= 96 - n
    decreases UINT32_BITS - n
  {
    hide Mask, ToBits, Ones;
    if n < UINT32_BITS && v >= Mask(n) { CodeLength(v - Mask(n), NextWidth(n)); }
  }
}
