/** The acknowledgement table of a frame: how pending acks are chosen, written and read back. */
module Acks {
  import opened Bits
  import Packed = PackedCode

  const MAX_ACKS: nat := 16
  const ACK_BITS: nat := 32

  ghost predicate Increasing(s: seq<u32>) {
    forall i, j :: 0 <= i < j < |s| ==> s[i] < s[j]
  }

  /** x put at its place in an increasing list, once. */
  function Insert(x: u32, s: seq<u32>): (r: seq<u32>)
    requires Increasing(s)
    ensures Increasing(r)
    ensures forall y :: y in r <==> y == x || y in s
  {
    if s == [] then [x]
    else if x < s[0] then [x] + s
    else if x == s[0] then s
    else
      var rest := Insert(x, s[1..]);
      assert s == [s[0]] + s[1..];
      PrependIncreasing(s[0], rest);
      [s[0]] + rest
  }

  lemma PrependIncreasing(x: u32, s: seq<u32>)
    requires Increasing(s) && forall y :: y in s ==> x < y
    ensures Increasing([x] + s)
  {
    var r := [x] + s;
    forall i, j | 0 <= i < j < |r|
      ensures r[i] < r[j]
    {
      if i == 0 { assert r[j] in s; }
    }
  }

  /** The list after sorting it and dropping repeated elements. */
  function SortUnique(s: seq<u32>): (r: seq<u32>)
    ensures Increasing(r)
    ensures forall y :: y in r <==> y in s
  {
    if s == [] then [] else Insert(s[0], SortUnique(s[1..]))
  }

  /** How many of the pending acks the next frame carries. */
  function Batch(pending: seq<u32>): nat {
    var n := |SortUnique(pending)|;
    if n < MAX_ACKS then n else MAX_ACKS
  }

  function Sent(pending: seq<u32>): (r: seq<u32>) {
    SortUnique(pending)[..Batch(pending)]
  }

  function Kept(pending: seq<u32>): (r: seq<u32>) {
    SortUnique(pending)[Batch(pending)..]
  }

  /** The frame takes the smallest min(16, n) distinct pending acks; nothing is lost and nothing is sent twice. */
  lemma Partition(pending: seq<u32>)
    ensures Increasing(Sent(pending)) && Increasing(Kept(pending)) && |Sent(pending)| <= MAX_ACKS
    ensures |Sent(pending)| < MAX_ACKS ==> Kept(pending) == []
    ensures forall a, b :: a in Sent(pending) && b in Kept(pending) ==> a < b
    ensures forall a :: a in pending <==> a in Sent(pending) || a in Kept(pending)
  {
    var all := SortUnique(pending);
    assert all == Sent(pending) + Kept(pending);
  }

  // ---- the bits ----

  function DeltaBits(last: u32, rest: seq<u32>): seq<bool>
    requires Increasing([last] + rest)
    decreases |rest|
  {
    if rest == [] then []
    else
      TailIncreasing(last, rest);
      Packed.Encode(rest[0] - last - 1, 1) + DeltaBits(rest[0], rest[1..])
  }

  lemma TailIncreasing(last: u32, rest: seq<u32>)
    requires rest != [] && Increasing([last] + rest)
    ensures last < rest[0] && Increasing([rest[0]] + rest[1..])
  {
    var all := [last] + rest;
    assert all[0] < all[1];
    assert [rest[0]] + rest[1..] == all[1..];
  }

  /** A packed count, the first ack in full, then packed distances less one. */
  function TableBits(acks: seq<u32>): seq<bool>
    requires Increasing(acks) && |acks| <= MAX_ACKS
  {
    if acks == [] then Packed.Encode(0, 1)
    else
      assert [acks[0]] + acks[1..] == acks;
      Packed.Encode(|acks|, 1) + ToBits(acks[0], ACK_BITS) + DeltaBits(acks[0], acks[1..])
  }

  datatype ParsedAcks = ParsedAcks(acks: seq<u32>, consumed: nat)

  /** The ids handed to addAck after the first one; a truncated table yields whatever the reader returns. */
  function ParseDeltas(b: seq<bool>, last: u32, n: nat): (r: ParsedAcks)
    ensures r.consumed <= |b|
    decreases n
  {
    if n == 0 then ParsedAcks([], 0)
    else
      var d := Packed.Decode(b, 1, 0);
      var next := Wrap32(last + Wrap32(d.value + 1));
      var r := ParseDeltas(b[d.consumed..], next, n - 1);
      ParsedAcks([next] + r.acks, d.consumed + r.consumed)
  }

  function ParseTable(b: seq<bool>): (r: ParsedAcks)
    ensures r.consumed <= |b|
  {
    var n := Packed.Decode(b, 1, 0);
    if n.value == 0 then ParsedAcks([], n.consumed)
    else
      var f := Packed.ReadGroup(b[n.consumed..], ACK_BITS);
      var r := ParseDeltas(b[n.consumed + f.consumed..], f.value, n.value - 1);
      ParsedAcks([f.value] + r.acks, n.consumed + f.consumed + r.consumed)
  }

  lemma {:induction false} DeltasRoundTrip(last: u32, rest: seq<u32>, tail: seq<bool>)
    requires Increasing([last] + rest)
    ensures ParseDeltas(DeltaBits(last, rest) + tail, last, |rest|) == ParsedAcks(rest, |DeltaBits(last, rest)|)
    decreases |rest|
  {
    hide Packed.Decode, Packed.Encode, Wrap32;
    if rest != [] {
      TailIncreasing(last, rest);
      var d := rest[0] - last - 1;
      var code, more := Packed.Encode(d, 1), DeltaBits(rest[0], rest[1..]);
      ConcatAssoc(code, more, tail);
      NoWrap(last, d);
      NextDelta(d, more + tail, last, |rest|);
      DeltasRoundTrip(rest[0], rest[1..], tail);
      assert rest == [rest[0]] + rest[1..];
    }
  }

  /** One distance is parsed. */
  lemma NextDelta(d: u32, more: seq<bool>, last: u32, n: nat)
    requires n > 0
    ensures var code, next := Packed.Encode(d, 1), Wrap32(last + Wrap32(d + 1));
            var r := ParseDeltas(more, next, n - 1);
            ParseDeltas(code + more, last, n) == ParsedAcks([next] + r.acks, |code| + r.consumed)
  {
    hide Packed.Decode, Packed.Encode, Wrap32;
    var code := Packed.Encode(d, 1);
    Packed.RoundTrip(d, 1, 0, more);
    assert (code + more)[|code|..] == more;
  }

  lemma NoWrap(last: u32, d: u32)
    requires last + d + 1 < 0x1_0000_0000
    ensures Wrap32(last + Wrap32(d + 1)) == last + d + 1
  {
  }

  /** The peer hands exactly the ids that were written to addAck, in order, and stops where the table ends. */
  lemma RoundTrip(acks: seq<u32>, tail: seq<bool>)
    requires Increasing(acks) && |acks| <= MAX_ACKS
    ensures ParseTable(TableBits(acks) + tail) == ParsedAcks(acks, |TableBits(acks)|)
  {
    hide Packed.Decode, Packed.Encode, Packed.ReadGroup, ToBits, DeltaBits, ParseDeltas;
    var n: nat := |acks|;
    var count := Packed.Encode(n, 1);
    if acks == [] {
      Packed.RoundTrip(0, 1, 0, tail);
    } else {
      assert [acks[0]] + acks[1..] == acks;
      var first, more := ToBits(acks[0], ACK_BITS), DeltaBits(acks[0], acks[1..]);
      var b := TableBits(acks) + tail;
      assert b == count + (first + (more + tail));
      Packed.RoundTrip(n, 1, 0, first + (more + tail));
      assert b[|count|..] == first + (more + tail);
      Packed.Pow2Value32();
      Packed.GroupReadBack(acks[0], ACK_BITS, more + tail);
      assert b[|count| + |first|..] == more + tail;
      DeltasRoundTrip(acks[0], acks[1..], tail);
    }
  }

  /** Sixteen acks fit in the space a frame reserves for them. */
  lemma {:induction false} DeltaLength(last: u32, rest: seq<u32>)
    requires Increasing([last] + rest)
    ensures |DeltaBits(last, rest)| <= 95 * |rest|
    decreases |rest|
  {
    hide Packed.Encode;
    if rest != [] {
      TailIncreasing(last, rest);
      Packed.CodeLength(rest[0] - last - 1, 1);
      DeltaLength(rest[0], rest[1..]);
    }
  }

  lemma TableLength(acks: seq<u32>)
    requires Increasing(acks) && |acks| <= MAX_ACKS
    ensures |TableBits(acks)| <= 2000
  {
    hide Packed.Encode, ToBits, DeltaBits;
    Packed.CodeLength(|acks|, 1);
    if acks != [] {
      assert [acks[0]] + acks[1..] == acks;
      DeltaLength(acks[0], acks[1..]);
    }
  }
}
