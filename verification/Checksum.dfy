/** The frame checksum: Adler-32 with the modulo of one sum left to the end. */
module Checksums {
  import opened Bits

  const BASE: nat := 0xFFF1

  /** The longest buffer for which the deferred sum is sure to fit 32 bits. */
  const SAFE_LENGTH: nat := 65297

  datatype Sums = Sums(s1: nat, s2: nat)

  /** Adler-32 as section 2.2 of RFC 1950 defines it: both sums reduced after every byte. */
  function Adler(buf: seq<byte>): (r: Sums)
    ensures r.s1 < BASE && r.s2 < BASE
  {
    if buf == [] then Sums(1, 0)
    else
      var p := Adler(buf[..|buf| - 1]);
      var s1 := (p.s1 + buf[|buf| - 1]) % BASE;
      Sums(s1, (p.s2 + s1) % BASE)
  }

  /** The sum that the code accumulates, without any reduction. */
  function DeferredSum(buf: seq<byte>): (r: nat)
    ensures r <= (BASE + 254) * |buf|
  {
    if buf == [] then 0
    else DeferredSum(buf[..|buf| - 1]) + Adler(buf[..|buf| - 1]).s1 + buf[|buf| - 1]
  }

  /** Host to network order of a 16-bit number, on a little-endian host. */
  function Htons(x: nat): (r: nat)
    requires x < 0x1_0000
    ensures r < 0x1_0000
  {
    x % 256 * 256 + x / 256
  }

  function Combine(c1: nat, c2: nat): u32
    requires c1 < 0x1_0000 && c2 < 0x1_0000
  {
    Htons(c1) * 0x1_0000 + Htons(c2)
  }

  /** What the method returns, as a function of the buffer. */
  function Value(buf: seq<byte>): u32 {
    Combine(Adler(buf).s1, Wrap32(DeferredSum(buf)) % BASE)
  }

  /** The checksum in memory is the 32-bit number s2 * 65536 + s1, most significant byte first. */
  ghost predicate IsAdler32(r: u32, buf: seq<byte>) {
    var value := Adler(buf).s2 * 0x1_0000 + Adler(buf).s1;
    StoreLE(r, 4) == [value / 0x100_0000, value / 0x1_0000 % 0x100, value / 0x100 % 0x100, value % 0x100]
  }

  method Checksum(buf: seq<byte>) returns (r: u32)
    requires |buf| < 0x1_0000_0000
    ensures r == Value(buf)
    ensures |buf| <= SAFE_LENGTH ==> IsAdler32(r, buf)
  {
    hide Adler, DeferredSum, Wrap32, Combine, IsAdler32;
    var sum1: u32, sum2: u32 := 1, 0;
    Nothing();
    for i := 0 to |buf|
      invariant sum1 == Adler(buf[..i]).s1
      invariant sum2 == Wrap32(DeferredSum(buf[..i]))
    {
      OneMore(buf, i);
      sum1 := sum1 + buf[i];
      Wrap32Add(DeferredSum(buf[..i]), sum1);
      sum2 := Wrap32(sum2 + sum1);
      if sum1 >= BASE {
        sum1 := sum1 - BASE;
      }
    }
    assert buf[..|buf|] == buf;
    sum2 := sum2 % BASE;
    r := Combine(sum1, sum2);
    SafeLength(buf);
    ExactlyWhen(buf);
  }

  lemma Nothing()
    ensures Adler([]) == Sums(1, 0) && DeferredSum([]) == 0 && Wrap32(0) == 0
  {
  }

  /** One byte more: a single subtraction reduces the first sum. */
  lemma OneMore(buf: seq<byte>, i: nat)
    requires i < |buf|
    ensures var x := Adler(buf[..i]).s1 + buf[i];
            Adler(buf[..i + 1]).s1 == (if x >= BASE then x - BASE else x)
                && DeferredSum(buf[..i + 1]) == DeferredSum(buf[..i]) + x
  {
    var p := buf[..i + 1];
    assert p[..|p| - 1] == buf[..i];
    OneReduction(Adler(buf[..i]).s1 + buf[i]);
  }

  lemma OneReduction(x: nat)
    requires x < 2 * BASE
    ensures x % BASE == if x >= BASE then x - BASE else x
  {
  }

  lemma {:induction false} DeferredModulo(buf: seq<byte>)
    ensures DeferredSum(buf) % BASE == Adler(buf).s2
  {
    if buf != [] {
      var p := buf[..|buf| - 1];
      DeferredModulo(p);
      var x := Adler(p).s1 + buf[|buf| - 1];
      AddModulo(DeferredSum(p), x);
    }
  }

  lemma AddModulo(a: nat, x: nat)
    ensures (a % BASE + x % BASE) % BASE == (a + x) % BASE
  {
  }

  lemma SafeLength(buf: seq<byte>)
    ensures |buf| <= SAFE_LENGTH ==> DeferredSum(buf) < 0x1_0000_0000
  {
  }

  /** The stored checksum is Adler-32 exactly when the 32-bit sum wrapped around a multiple of BASE times. */
  lemma ExactlyWhen(buf: seq<byte>)
    ensures IsAdler32(Value(buf), buf) <==> DeferredSum(buf) / 0x1_0000_0000 % BASE == 0
  {
    DeferredModulo(buf);
    WrapModulo(DeferredSum(buf));
    NetworkOrder(Adler(buf).s1, Wrap32(DeferredSum(buf)) % BASE, Adler(buf).s2);
  }

  lemma NetworkOrder(s1: nat, c2: nat, s2: nat)
    requires s1 < BASE && c2 < BASE && s2 < BASE
    ensures var value := s2 * 0x1_0000 + s1;
            StoreLE(Combine(s1, c2), 4)
                == [value / 0x100_0000, value / 0x1_0000 % 0x100, value / 0x100 % 0x100, value % 0x100]
            <==> c2 == s2
  {
    FourBytes(s1 / 256, s1 % 256, c2 / 256, c2 % 256);
    ValueBytes(s1 / 256, s1 % 256, s2 / 256, s2 % 256);
  }

  lemma FourBytes(a: byte, b: byte, c: byte, d: byte)
    ensures StoreLE((b * 256 + a) * 0x1_0000 + (d * 256 + c), 4) == [c, d, a, b]
  {
    var r := (b * 256 + a) * 0x1_0000 + (d * 256 + c);
    assert r % 256 == c && r / 256 == (b * 256 + a) * 256 + d;
    assert r / 256 % 256 == d && r / 256 / 256 == b * 256 + a;
    assert r / 256 / 256 % 256 == a && r / 256 / 256 / 256 == b;
    assert StoreLE(b, 1) == [b];
  }

  lemma ValueBytes(a: byte, b: byte, c: byte, d: byte)
    ensures var value := (c * 256 + d) * 0x1_0000 + (a * 256 + b);
            [value / 0x100_0000, value / 0x1_0000 % 0x100, value / 0x100 % 0x100, value % 0x100] == [c, d, a, b]
  {
    var value := (c * 256 + d) * 0x1_0000 + (a * 256 + b);
    ModUnique(value, 0x100_0000, c, d * 0x1_0000 + a * 256 + b);
    ModUnique(value, 0x1_0000, c * 256 + d, a * 256 + b);
    ModUnique(c * 256 + d, 256, c, d);
    ModUnique(value, 0x100, (c * 256 + d) * 256 + a, b);
    ModUnique((c * 256 + d) * 256 + a, 256, c * 256 + d, a);
  }

  lemma Multiples(x: int, t: int)
    ensures (x + BASE * t) % BASE == x % BASE
  {
  }

  /** 2^32 is 225 modulo BASE, and 225 has an inverse. */
  lemma WrapModulo(e: nat)
    ensures Wrap32(e) % BASE == e % BASE <==> e / 0x1_0000_0000 % BASE == 0
  {
    var k, w := e / 0x1_0000_0000, Wrap32(e);
    assert e == w + 225 * k + BASE * (65551 * k);
    Multiples(w + 225 * k, 65551 * k);
    if w % BASE == e % BASE {
      var t := (w + 225 * k) / BASE - w / BASE;
      assert 225 * k == BASE * t;
      assert k == 0 + BASE * (12813 * t - 44 * k);
      Multiples(0, 12813 * t - 44 * k);
    }
    if k % BASE == 0 {
      var t := k / BASE;
      assert k == BASE * t;
      assert w + 225 * k == w + BASE * (225 * t);
      Multiples(w, 225 * t);
    }
  }
}
