/** Bits, bytes and little-endian machine words.  A bit sequence has its least significant bit first. */
module Bits {

  type byte = n: nat | n < 256
  type u32 = n: nat | n < 0x1_0000_0000

  const OCTET: nat := 8

  function Pow2(n: nat): (r: nat)
    ensures r >= 1
  {
    if n == 0 then 1 else 2 * Pow2(n - 1)
  }

  /** The low n bits of v. */
  function ToBits(v: nat, n: nat): (r: seq<bool>)
    ensures |r| == n
    decreases n
  {
    if n == 0 then [] else [v % 2 == 1] + ToBits(v / 2, n - 1)
  }

  function FromBits(b: seq<bool>): (r: nat)
    ensures r < Pow2(|b|)
  {
    if b == [] then 0 else (if b[0] then 1 else 0) + 2 * FromBits(b[1..])
  }

  lemma {:induction false} FromToBits(v: nat, n: nat)
    ensures FromBits(ToBits(v, n)) == v % Pow2(n)
    decreases n
  {
    if n > 0 {
      FromToBits(v / 2, n - 1);
      assert ToBits(v, n)[1..] == ToBits(v / 2, n - 1);
      HalfMod(v, Pow2(n - 1));
    }
  }

  lemma HalfMod(v: nat, p: nat)
    requires p >= 1
    ensures v % (2 * p) == v % 2 + 2 * (v / 2 % p)
  {
    var q, r := v / 2 / p, v / 2 % p;
    assert v == 2 * (q * p + r) + v % 2;
    assert v == q * (2 * p) + (2 * r + v % 2);
    ModUnique(v, 2 * p, q, 2 * r + v % 2);
  }

  lemma ModUnique(v: nat, m: nat, q: nat, r: nat)
    requires m > 0 && r < m && v == q * m + r
    ensures v % m == r && v / m == q
  {
    var k := v / m - q;
    MultipleGap(k, m);
    assert k * m == r - v % m;
  }

  lemma MultipleGap(k: int, m: nat)
    ensures k >= 1 ==> k * m >= m
    ensures k <= -1 ==> -(k * m) >= m
  {
  }

  lemma DivMod(v: nat, m: nat)
    requires m > 0
    ensures v == v / m * m + v % m
  {
  }

  lemma {:induction false} ToFromBits(b: seq<bool>)
    ensures ToBits(FromBits(b), |b|) == b
  {
    if b != [] {
      ToFromBits(b[1..]);
      assert b == [b[0]] + b[1..];
    }
  }

  lemma ConcatAssoc<T>(a: seq<T>, b: seq<T>, c: seq<T>)
    ensures (a + b) + c == a + (b + c)
  {
  }

  /** v with its n low bits dropped. */
  function Shr(v: nat, n: nat): nat
    decreases n
  {
    if n == 0 then v else Shr(v / 2, n - 1)
  }

  lemma {:induction false} ShrIsDiv(v: nat, n: nat)
    ensures Shr(v, n) == v / Pow2(n)
    decreases n
  {
    if n > 0 {
      ShrIsDiv(v / 2, n - 1);
      DivDiv(v, 2, Pow2(n - 1));
    }
  }

  lemma {:induction false} ToBitsConcat(v: nat, n: nat, m: nat)
    ensures ToBits(v, n + m) == ToBits(v, n) + ToBits(Shr(v, n), m)
    decreases n
  {
    if n > 0 {
      ToBitsConcat(v / 2, n - 1, m);
      ConcatAssoc([v % 2 == 1], ToBits(v / 2, n - 1), ToBits(Shr(v, n), m));
    }
  }

  lemma DivDiv(v: nat, a: nat, b: nat)
    requires a > 0 && b > 0
    ensures a * b > 0 && v / a / b == v / (a * b)
  {
    var w := v / a;
    var q, r, t := w / b, w % b, v % a;
    assert w == b * q + r;
    assert v == a * w + t;
    NestedParts(v, a, b, q, r, t);
    ModUnique(v, a * b, q, a * r + t);
  }

  /** Quotient and remainder of a product, from those of its factors. */
  lemma NestedParts(v: int, a: int, b: int, q: int, r: int, t: int)
    requires a > 0 && b > 0 && v == a * (b * q + r) + t && 0 <= r < b && 0 <= t < a
    ensures a * b > 0 && v == q * (a * b) + (a * r + t) && 0 <= a * r + t < a * b
  {
    Distributed(a, b, q, r);
    MulMono(1, b, a);
    MulMono(0, r, a);
    MulMono(r, b - 1, a);
    Distributed(a, 1, b, -1);
  }

  lemma Distributed(a: int, b: int, q: int, r: int)
    ensures a * (b * q + r) == q * (a * b) + a * r
  {
    assert a * (b * q + r) == a * (b * q) + a * r;
  }

  lemma ModAtMost(d: nat, m: nat)
    requires m > 0
    ensures d % m <= d
  {
    if d < m { ModUnique(d, m, 0, d); }
  }

  lemma MulMono(x: int, y: int, m: nat)
    requires x <= y
    ensures m * x <= m * y
  {
  }

  lemma {:induction false} ToBitsOfSum(v: nat, w: nat, n: nat)
    ensures ToBits(v + w * Pow2(n), n) == ToBits(v, n)
    decreases n
  {
    if n > 0 {
      var p := w * Pow2(n - 1);
      assert w * Pow2(n) == 2 * p;
      assert (v + 2 * p) / 2 == v / 2 + p && (v + 2 * p) % 2 == v % 2;
      ToBitsOfSum(v / 2, w, n - 1);
    }
  }

  lemma ToBitsMod(v: nat, n: nat)
    ensures ToBits(v % Pow2(n), n) == ToBits(v, n)
  {
    hide *;
    var p := Pow2(n);
    DivMod(v, p);
    ToBitsOfSum(v % p, v / p, n);
  }

  lemma {:induction false} Pow2Add(a: nat, b: nat)
    ensures Pow2(a + b) == Pow2(a) * Pow2(b)
    decreases a
  {
    if a > 0 { Pow2Add(a - 1, b); }
  }

  lemma {:induction false} ToBitsZero(n: nat)
    ensures forall i :: 0 <= i < n ==> !ToBits(0, n)[i]
  {
    if n > 0 { ToBitsZero(n - 1); }
  }

  /** 2^n - 1 has exactly its low n bits set. */
  lemma {:induction false} MaskBits(n: nat, w: nat, i: nat)
    requires i < w
    ensures ToBits(Pow2(n) - 1, w)[i] == (i < n)
    decreases n
  {
    hide ToBits;
    if n == 0 {
      ToBitsZero(w);
    } else {
      var m := Pow2(n - 1) - 1;
      assert Pow2(n) == 2 * Pow2(n - 1);
      hide Pow2;
      ToBitsOdd(m, w);
      if i > 0 { MaskBits(n - 1, w - 1, i - 1); }
    }
  }

  lemma ToBitsOdd(m: nat, w: nat)
    requires w > 0
    ensures ToBits(2 * m + 1, w) == [true] + ToBits(m, w - 1)
  {
    assert (2 * m + 1) % 2 == 1 && (2 * m + 1) / 2 == m;
  }

  lemma {:induction false} HighBitsClear(v: nat, n: nat, w: nat, i: nat)
    requires v < Pow2(n) && n <= i < w
    ensures !ToBits(v, w)[i]
    decreases n
  {
    if n == 0 {
      ToBitsZero(w);
    } else {
      HighBitsClear(v / 2, n - 1, w - 1, i - 1);
    }
  }

  lemma {:induction false} ToBitsPrefix(v: nat, n: nat, w: nat)
    requires n <= w
    ensures ToBits(v, w)[..n] == ToBits(v, n)
  {
    ToBitsConcat(v, n, w - n);
  }

  /** Unsigned 32-bit arithmetic wraps around. */
  function Wrap32(x: nat): u32 {
    x % 0x1_0000_0000
  }

  lemma Wrap32Add(a: nat, b: nat)
    ensures Wrap32(Wrap32(a) + b) == Wrap32(a + b)
  {
  }

  // ---- bytes ----

  function ByteBits(b: byte): (r: seq<bool>)
    ensures |r| == 8
  {
    ToBits(b, OCTET)
  }

  function BytesBits(bs: seq<byte>): (r: seq<bool>)
    ensures |r| == 8 * |bs|
  {
    if bs == [] then [] else ByteBits(bs[0]) + BytesBits(bs[1..])
  }

  lemma BytesBitsFirst(bs: seq<byte>)
    requires bs != []
    ensures BytesBits(bs) == ByteBits(bs[0]) + BytesBits(bs[1..])
  {
  }

  lemma {:induction false} BytesBitsConcat(a: seq<byte>, b: seq<byte>)
    ensures BytesBits(a + b) == BytesBits(a) + BytesBits(b)
  {
    hide BytesBits, ByteBits;
    if a == [] {
      assert a + b == b;
    } else {
      assert (a + b)[1..] == a[1..] + b;
      BytesBitsConcat(a[1..], b);
      BytesBitsFirst(a);
      BytesBitsFirst(a + b);
      ConcatAssoc(ByteBits(a[0]), BytesBits(a[1..]), BytesBits(b));
    }
  }

  lemma BytesBitsSlice(bs: seq<byte>, lo: nat, hi: nat)
    requires lo <= hi <= |bs|
    ensures BytesBits(bs[lo..hi]) == BytesBits(bs)[8 * lo..8 * hi]
  {
    BytesBitsCut(bs, hi);
    BytesBitsCut(bs[..hi], lo);
    assert bs[..hi][..lo] == bs[..lo] && bs[..hi][lo..] == bs[lo..hi];
  }

  lemma BytesBitsCut(bs: seq<byte>, i: nat)
    requires i <= |bs|
    ensures BytesBits(bs[..i]) == BytesBits(bs)[..8 * i]
    ensures BytesBits(bs[i..]) == BytesBits(bs)[8 * i..]
  {
    assert bs == bs[..i] + bs[i..];
    BytesBitsConcat(bs[..i], bs[i..]);
  }

  lemma ByteBitsInjective(a: byte, b: byte)
    requires ByteBits(a) == ByteBits(b)
    ensures a == b
  {
    BitsInjective(a, b, OCTET);
  }

  lemma BitsInjective(a: nat, b: nat, n: nat)
    requires a < Pow2(n) && b < Pow2(n) && ToBits(a, n) == ToBits(b, n)
    ensures a == b
  {
    hide *;
    FromToBits(a, n);
    FromToBits(b, n);
    ModUnique(a, Pow2(n), 0, a);
    ModUnique(b, Pow2(n), 0, b);
  }

  lemma {:induction false} BytesBitsInjective(a: seq<byte>, b: seq<byte>)
    requires BytesBits(a) == BytesBits(b)
    ensures a == b
  {
    assert |a| == |b|;
    if a != [] {
      var x, y := BytesBits(a), BytesBits(b);
      assert x[..8] == ByteBits(a[0]) && x[8..] == BytesBits(a[1..]);
      assert y[..8] == ByteBits(b[0]) && y[8..] == BytesBits(b[1..]);
      ByteBitsInjective(a[0], b[0]);
      BytesBitsInjective(a[1..], b[1..]);
      assert a == [a[0]] + a[1..] && b == [b[0]] + b[1..];
    }
  }

  /** The lowest byte of v comes first. */
  lemma SplitLowByte(v: nat, n: nat)
    ensures ToBits(v, 8 + n) == ByteBits(v % 256) + ToBits(v / 256, n)
  {
    assert Pow2(8) == 256;
    ToBitsConcat(v, 8, n);
    ShrIsDiv(v, 8);
    ToBitsMod(v, 8);
  }

  /** The little-endian number held by bs. */
  function LoadLE(bs: seq<byte>): nat {
    if bs == [] then 0 else bs[0] + 256 * LoadLE(bs[1..])
  }

  /** The n low bytes of v, least significant first. */
  function StoreLE(v: nat, n: nat): (r: seq<byte>)
    ensures |r| == n
    decreases n
  {
    if n == 0 then [] else [v % 256] + StoreLE(v / 256, n - 1)
  }

  lemma {:induction false} LoadLEBits(bs: seq<byte>)
    ensures ToBits(LoadLE(bs), 8 * |bs|) == BytesBits(bs)
  {
    if bs != [] {
      var v, rest := LoadLE(bs), bs[1..];
      LoadLEBits(rest);
      SplitLowByte(v, 8 * |rest|);
      assert v % 256 == bs[0] && v / 256 == LoadLE(rest);
    }
  }

  lemma {:induction false} StoreLEBits(v: nat, n: nat)
    ensures BytesBits(StoreLE(v, n)) == ToBits(v, 8 * n)
    decreases n
  {
    if n > 0 {
      StoreLEBits(v / 256, n - 1);
      assert StoreLE(v, n)[1..] == StoreLE(v / 256, n - 1);
      SplitLowByte(v, 8 * (n - 1));
    }
  }

  lemma LoadStoreLE(v: nat, n: nat)
    ensures LoadLE(StoreLE(v, n)) == v % Pow2(8 * n)
  {
    var s := StoreLE(v, n);
    LoadLEBits(s);
    StoreLEBits(v, n);
    FromToBits(LoadLE(s), 8 * n);
    FromToBits(v, 8 * n);
    LoadLEBound(s);
    ModUnique(LoadLE(s), Pow2(8 * n), 0, LoadLE(s));
  }

  lemma {:induction false} LoadLEBound(bs: seq<byte>)
    ensures LoadLE(bs) < Pow2(8 * |bs|)
  {
    if bs != [] {
      LoadLEBound(bs[1..]);
      Pow2Add(8, 8 * |bs[1..]|);
      assert Pow2(8) == 256;
    }
  }

  /** A whole number of bytes of bits, packed. */
  function PackBytes(bits: seq<bool>): (r: seq<byte>)
    requires |bits| % 8 == 0
    ensures |r| == |bits| / 8
  {
    StoreLE(FromBits(bits), |bits| / 8)
  }

  lemma PackBytesBits(bits: seq<bool>)
    requires |bits| % 8 == 0
    ensures BytesBits(PackBytes(bits)) == bits
  {
    StoreLEBits(FromBits(bits), |bits| / 8);
    ToFromBits(bits);
  }

  /** The number of bytes that n bits take. */
  function BytesFor(nBits: nat): nat {
    (nBits + 7) / 8
  }

  function Zeros(n: nat): (r: seq<bool>)
    ensures |r| == n && forall i :: 0 <= i < n ==> !r[i]
  {
    seq(n, _ => false)
  }

  /** Zero bits up to the next byte boundary. */
  function Pad(n: nat): (r: seq<bool>)
    ensures (n + |r|) % 8 == 0 && |r| < 8
    ensures forall i :: 0 <= i < |r| ==> !r[i]
  {
    Zeros((8 - n % 8) % 8)
  }
}
