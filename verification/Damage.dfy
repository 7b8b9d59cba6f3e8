/** What the checksum of a datagram notices: which altered datagrams are rejected. */
module Damages {
  import opened Bits
  import opened Options
  import opened Packets
  import opened Checksums
  import opened Frames
  import opened Endpoints
  import Acks

  // ---- the sums of an altered buffer ----

  function Sum(buf: seq<byte>): nat {
    if buf == [] then 0 else Sum(buf[..|buf| - 1]) + buf[|buf| - 1]
  }

  lemma {:induction false} FirstSum(buf: seq<byte>)
    ensures Adler(buf).s1 == (1 + Sum(buf)) % BASE
  {
    if buf != [] {
      var p := buf[..|buf| - 1];
      FirstSum(p);
      AddToResidue(1 + Sum(p), buf[|buf| - 1]);
    }
  }

  lemma AddToResidue(x: int, y: int)
    ensures (x % BASE + y) % BASE == (x + y) % BASE
  {
    Multiples(x % BASE + y, x / BASE);
  }

  lemma {:induction false} SumAltered(buf: seq<byte>, k: nat, v: byte)
    requires k < |buf|
    ensures Sum(buf[k := v]) == Sum(buf) - buf[k] + v
  {
    var n := |buf| - 1;
    var altered := buf[k := v];
    if k < n {
      SumAltered(buf[..n], k, v);
      assert altered[..n] == buf[..n][k := v];
    } else {
      assert altered[..n] == buf[..n];
    }
  }

  /** Residues of numbers less than BASE apart are equal only if the numbers are. */
  lemma ResiduesApart(x: nat, y: nat)
    requires x < y < x + BASE
    ensures x % BASE != y % BASE
  {
    var t := y / BASE - x / BASE;
    assert y - x == BASE * t + (y % BASE - x % BASE);
  }

  lemma CombineInjective(c1: nat, c2: nat, d1: nat, d2: nat)
    requires c1 < 0x1_0000 && c2 < 0x1_0000 && d1 < 0x1_0000 && d2 < 0x1_0000
    ensures Combine(c1, c2) == Combine(d1, d2) ==> c1 == d1 && c2 == d2
  {
    HtonsInjective(c1, d1);
    HtonsInjective(c2, d2);
    if Combine(c1, c2) == Combine(d1, d2) {
      ModUnique(Combine(c1, c2), 0x1_0000, Htons(c1), Htons(c2));
      ModUnique(Combine(c1, c2), 0x1_0000, Htons(d1), Htons(d2));
    }
  }

  lemma HtonsInjective(x: nat, y: nat)
    requires x < 0x1_0000 && y < 0x1_0000
    ensures Htons(x) == Htons(y) ==> x == y
  {
    ModUnique(Htons(x), 256, x % 256, x / 256);
    ModUnique(Htons(y), 256, y % 256, y / 256);
  }

  /** One byte altered, in a buffer of any length: another checksum. */
  lemma OneByteNoticed(buf: seq<byte>, k: nat, v: byte)
    requires k < |buf| && v != buf[k]
    ensures Value(buf[k := v]) != Value(buf)
  {
    hide Adler, DeferredSum, Wrap32, Combine, Sum;
    var altered := buf[k := v];
    FirstSum(buf);
    FirstSum(altered);
    SumAltered(buf, k, v);
    if v > buf[k] {
      ResiduesApart(1 + Sum(buf), 1 + Sum(altered));
    } else {
      ResiduesApart(1 + Sum(altered), 1 + Sum(buf));
    }
    CombineInjective(Adler(buf).s1, Wrap32(DeferredSum(buf)) % BASE,
                     Adler(altered).s1, Wrap32(DeferredSum(altered)) % BASE);
  }

  /** One byte more. */
  function Next(s: Sums, x: byte): Sums {
    var s1 := (s.s1 + x) % 65521;
    Sums(s1, (s.s2 + s1) % 65521)
  }

  lemma AdlerSnoc(buf: seq<byte>, x: byte)
    ensures Adler(buf + [x]) == Next(Adler(buf), x)
  {
    assert (buf + [x])[..|buf|] == buf;
  }

  /** The second sums stay apart whatever bytes follow, if the first sums agree. */
  lemma {:induction false} SecondSumsApart(a: seq<byte>, b: seq<byte>, rest: seq<byte>)
    requires Adler(a).s1 == Adler(b).s1 && Adler(a).s2 != Adler(b).s2
    ensures Adler(a + rest).s1 == Adler(b + rest).s1 && Adler(a + rest).s2 != Adler(b + rest).s2
    decreases |rest|
  {
    hide Adler;
    if rest == [] {
      assert a + rest == a && b + rest == b;
    } else {
      var n := |rest| - 1;
      var front, x := rest[..n], rest[n];
      SecondSumsApart(a, b, front);
      assert a + rest == a + front + [x] && b + rest == b + front + [x];
      AdlerSnoc(a + front, x);
      AdlerSnoc(b + front, x);
      SameShift(Adler(a + front).s2, Adler(b + front).s2, Adler(a + rest).s1);
    }
  }

  lemma SameShift(x: nat, y: nat, d: nat)
    requires x < BASE && y < BASE && d < BASE
    ensures (x + d) % BASE == (y + d) % BASE ==> x == y
  {
    if x < y { ResiduesApart(x + d, y + d); }
    if y < x { ResiduesApart(y + d, x + d); }
  }

  lemma FirstSumSwapped(s: Sums, x: byte, y: byte)
    ensures Next(Next(s, x), y).s1 == Next(Next(s, y), x).s1
  {
    AddToResidue(s.s1 + x, y);
    AddToResidue(s.s1 + y, x);
  }

  lemma SecondSumSwapped(s: Sums, x: byte, y: byte)
    requires x != y && s.s1 < BASE && s.s2 < BASE
    ensures Next(Next(s, x), y).s2 != Next(Next(s, y), x).s2
  {
    var px, py := Next(s, x), Next(s, y);
    FirstSumSwapped(s, x, y);
    ShiftsApart(s.s1, x, y);
    ShiftsApart(s.s2, px.s1, py.s1);
    ShiftsApart(Next(px, y).s1, px.s2, py.s2);
  }

  lemma ShiftsApart(d: nat, x: nat, y: nat)
    requires x < BASE && y < BASE && d < BASE && x != y
    ensures (d + x) % BASE != (d + y) % BASE && (x + d) % BASE != (y + d) % BASE
  {
    assert x + d == d + x && y + d == d + y;
    SameShift(x, y, d);
  }

  /** Two different neighbours exchanged leave the first sum alone but not the second. */
  lemma SwapNoticed(front: seq<byte>, x: byte, y: byte)
    requires x != y
    ensures Adler(front + [x] + [y]).s1 == Adler(front + [y] + [x]).s1
    ensures Adler(front + [x] + [y]).s2 != Adler(front + [y] + [x]).s2
  {
    hide Adler, Next;
    AdlerSnoc(front, x);
    AdlerSnoc(front + [x], y);
    AdlerSnoc(front, y);
    AdlerSnoc(front + [y], x);
    FirstSumSwapped(Adler(front), x, y);
    SecondSumSwapped(Adler(front), x, y);
  }

  /** Two different neighbours exchanged, in a buffer no longer than the deferred sum bears: another checksum. */
  lemma ExchangeNoticed(front: seq<byte>, x: byte, y: byte, rest: seq<byte>)
    requires x != y && |front| + 2 + |rest| <= SAFE_LENGTH
    ensures Value(front + [x] + [y] + rest) != Value(front + [y] + [x] + rest)
  {
    hide Adler, DeferredSum, Combine;
    var a, b := front + [x] + [y] + rest, front + [y] + [x] + rest;
    SwapNoticed(front, x, y);
    SecondSumsApart(front + [x] + [y], front + [y] + [x], rest);
    SafeLength(a);
    SafeLength(b);
    DeferredModulo(a);
    DeferredModulo(b);
    CombineInjective(Adler(a).s1, Wrap32(DeferredSum(a)) % BASE, Adler(b).s1, Wrap32(DeferredSum(b)) % BASE);
  }

  // ---- altered datagrams ----

  /** The bytes that carry the checksum are the ones computed from what follows. */
  predicate ChecksumRight(frame: seq<byte>)
    requires |frame| >= SHORTEST_FRAME
  {
    frame[4..8] == StoreLE(Value(frame[8..]), 4)
  }

  /** The length that is stored first passes the assertion of the receiver. */
  predicate LengthAllowed(frame: seq<byte>)
    requires |frame| >= SHORTEST_FRAME
  {
    32 <= LoadLE(frame[..4]) <= 8 * |frame|
  }

  lemma LowByte(rest: nat, x: byte)
    ensures (x + 256 * rest) % 256 == x && (x + 256 * rest) / 256 == rest
  {
  }

  /** Accepted as far as its front is concerned: long enough, and both numbers stored first are right. */
  predicate Sealed(frame: seq<byte>) {
    |frame| >= SHORTEST_FRAME && LengthAllowed(frame) && ChecksumRight(frame)
  }

  /** Every datagram leaves its sender sealed. */
  lemma SentSealed(p: Packet, acks: seq<u32>)
    requires p.Valid() && Acks.Increasing(acks) && |acks| <= Acks.MAX_ACKS && BitLength(p, acks) < 0x1_0000_0000
    ensures Sealed(FrameBytes(p, acks))
  {
    hide BitLength, Tail, Value, StoreLE, LoadLE, ParseTail;
    LongEnough(p, acks);
    TailParses(p, acks);
    var frame, t := FrameBytes(p, acks), Tail(p, acks);
    FrontRoundTrip(BitLength(p, acks));
    assert frame[..4] == StoreLE(BitLength(p, acks), 4) && frame[4..8] == StoreLE(Value(t), 4) && frame[8..] == t;
  }

  lemma StoredValue(bytes: seq<byte>, v: u32)
    requires |bytes| == 4
    ensures LoadLE(bytes) == v <==> bytes == StoreLE(v, 4)
  {
    hide LoadLE, StoreLE;
    FrontRoundTrip(v);
    if LoadLE(bytes) == v { StoreLoadLE(bytes); }
  }

  lemma {:induction false} StoreLoadLE(bytes: seq<byte>)
    ensures StoreLE(LoadLE(bytes), |bytes|) == bytes
  {
    if bytes != [] {
      StoreLoadLE(bytes[1..]);
      LowByte(LoadLE(bytes[1..]), bytes[0]);
    }
  }

  /**
   * A datagram is rejected for its checksum exactly if its checksum is wrong, and taken in only if it is right: the
   * four bytes are then Adler-32 in network order, up to the length for which the code computes that.
   */
  lemma RejectedExactly(frame: seq<byte>)
    ensures Parse(frame) == TooShort <==> |frame| < 12
    ensures |frame| >= 12 && !LengthAllowed(frame) ==> Parse(frame) == Malformed
    ensures |frame| >= 12 && LengthAllowed(frame) ==> (Parse(frame) == BadChecksum <==> !ChecksumRight(frame))
    ensures Parse(frame).Received? ==> |frame| >= 12 && LengthAllowed(frame) && ChecksumRight(frame)
    ensures Parse(frame).Received? && |frame| <= 8 + SAFE_LENGTH ==>
              var sums := Adler(frame[8..]);
              frame[4..8] == [sums.s2 / 256, sums.s2 % 256, sums.s1 / 256, sums.s1 % 256]
  {
    hide ParseTail, LoadLE, StoreLE, Value, Adler;
    if |frame| >= 12 {
      StoredValue(frame[4..8], Value(frame[8..]));
      if LengthAllowed(frame) { TailNeverBlamed(frame[8..], LoadLE(frame[..4])); }
      if |frame| <= 8 + SAFE_LENGTH { AdlerInOrder(frame[8..]); }
    }
  }

  lemma TailNeverBlamed(tail: seq<byte>, bitLength: nat)
    requires bitLength <= 8 * (HEAD_BYTES + |tail|)
    ensures ParseTail(tail, bitLength) == Malformed || ParseTail(tail, bitLength).Received?
  {
    hide ParseHeader, BytesBits, BytesFor;
  }

  lemma AdlerInOrder(buf: seq<byte>)
    requires |buf| <= SAFE_LENGTH
    ensures var sums := Adler(buf);
            StoreLE(Value(buf), 4) == [sums.s2 / 256, sums.s2 % 256, sums.s1 / 256, sums.s1 % 256]
  {
    hide Adler, Value, StoreLE, Combine;
    UndeferredValue(buf);
    NetworkBytes(Adler(buf).s1, Adler(buf).s2);
  }

  lemma UndeferredValue(buf: seq<byte>)
    requires |buf| <= SAFE_LENGTH
    ensures Value(buf) == Combine(Adler(buf).s1, Adler(buf).s2)
  {
    hide Adler, DeferredSum, Combine;
    SafeLength(buf);
    DeferredModulo(buf);
  }

  lemma NetworkBytes(s1: nat, s2: nat)
    requires s1 < BASE && s2 < BASE
    ensures StoreLE(Combine(s1, s2), 4) == [s2 / 256, s2 % 256, s1 / 256, s1 % 256]
  {
    hide StoreLE, Htons;
    HtonsExchanges(s1 / 256, s1 % 256);
    HtonsExchanges(s2 / 256, s2 % 256);
    FourBytes(s1 / 256, s1 % 256, s2 / 256, s2 % 256);
  }

  lemma HtonsExchanges(high: byte, low: byte)
    ensures Htons(high * 256 + low) == low * 256 + high
  {
    ModUnique(high * 256 + low, 256, high, low);
  }

  /** Everything behind the checksum of a sealed datagram replaced: it is rejected exactly if the checksum differs. */
  lemma TailReplaced(frame: seq<byte>, tail: seq<byte>)
    requires Sealed(frame) && |tail| >= 4 && LengthAllowed(frame[..8] + tail)
    ensures Parse(frame[..8] + tail) == BadChecksum <==> Value(tail) != Value(frame[8..])
  {
    hide Parse, Value, LoadLE, StoreLE;
    var altered := frame[..8] + tail;
    RejectedExactly(altered);
    assert altered[4..8] == frame[4..8] && altered[8..] == tail;
    StoredValue(frame[4..8], Value(frame[8..]));
    StoredValue(frame[4..8], Value(tail));
  }

  /** Any one byte of a sealed datagram altered, except in the stored length: it is rejected and changes nothing. */
  lemma OneByteRejected(frame: seq<byte>, k: nat, v: byte)
    requires Sealed(frame) && 4 <= k < |frame| && v != frame[k]
    ensures Parse(frame[k := v]) == BadChecksum
    ensures forall e: Endpoint :: e.avail == [] ==> Deliver(e, frame[k := v]) == (e, None)
  {
    hide Parse, Value, LoadLE, StoreLE;
    var altered := frame[k := v];
    RejectedExactly(altered);
    assert altered[..4] == frame[..4];
    if k < 8 {
      assert altered[8..] == frame[8..] && altered[4..8][k - 4] != frame[4..8][k - 4];
    } else {
      assert altered[4..8] == frame[4..8] && altered[8..] == frame[8..][k - 8 := v];
      OneByteNoticed(frame[8..], k - 8, v);
      StoredValue(frame[4..8], Value(frame[8..]));
      StoredValue(frame[4..8], Value(altered[8..]));
    }
  }

  /** Two different neighbouring bytes of a sealed datagram exchanged, behind the checksum: it is rejected. */
  lemma ExchangeRejected(frame: seq<byte>, k: nat)
    requires Sealed(frame) && 8 <= k < |frame| - 1 && frame[k] != frame[k + 1] && |frame| <= 8 + SAFE_LENGTH
    ensures Parse(frame[k := frame[k + 1]][k + 1 := frame[k]]) == BadChecksum
  {
    hide Parse, Value, LoadLE, StoreLE;
    var altered := frame[k := frame[k + 1]][k + 1 := frame[k]];
    RejectedExactly(altered);
    var front, rest := frame[8..k], frame[k + 2..];
    assert frame[8..] == front + [frame[k]] + [frame[k + 1]] + rest;
    assert altered[8..] == front + [frame[k + 1]] + [frame[k]] + rest;
    assert altered[..4] == frame[..4] && altered[4..8] == frame[4..8];
    ExchangeNoticed(front, frame[k], frame[k + 1], rest);
    StoredValue(frame[4..8], Value(frame[8..]));
    StoredValue(frame[4..8], Value(altered[8..]));
  }

  /** The stored length is not covered: whatever it is altered to, the checksum does not notice. */
  lemma LengthNotCovered(frame: seq<byte>, length: u32)
    requires Sealed(frame)
    ensures Parse(StoreLE(length, 4) + frame[4..]) != BadChecksum
  {
    hide Parse, Value, LoadLE, StoreLE, ParseTail;
    var altered := StoreLE(length, 4) + frame[4..];
    assert altered[4..8] == frame[4..8] && altered[8..] == frame[8..];
    RejectedExactly(altered);
  }

  /** A sealed datagram whose debug bit is set, or that ends before its numbers, fails an assertion. */
  lemma DebugRefused(frame: seq<byte>)
    requires Sealed(frame)
    ensures BytesBits(frame[8..])[0] ==> Parse(frame) == Malformed
    ensures |frame| == SHORTEST_FRAME ==> Parse(frame) == Malformed
  {
    hide Value, LoadLE, StoreLE;
    StoredValue(frame[4..8], Value(frame[8..]));
  }
}
