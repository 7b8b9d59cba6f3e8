/** Splitting a large payload and putting the parts together again. */
module SiblingBodies {
  import opened Bits
  import opened Options
  import opened Packets

  const BLOCK: nat := 1272

  predicate IsLarge(b: Body) {
    b.WholeBytes() >= BLOCK
  }

  /** Blocks of exactly BLOCK bytes, then the rest with its last partial byte, if a whole byte is left. */
  function Split(b: Body): seq<Body>
    decreases b.nbits
  {
    if b.WholeBytes() > BLOCK then
      [Contents(b.bytes[..BLOCK], 8 * BLOCK)] + Split(Contents(b.bytes[BLOCK..], b.nbits - 8 * BLOCK))
    else if b.WholeBytes() > 0 then [b]
    else []
  }

  /** A part is stored from the next byte boundary on. */
  function Append(front: Body, part: Body): Body {
    Contents(front.bytes + part.bytes, 8 * |front.bytes| + part.nbits)
  }

  function MergeFrom(front: Body, parts: seq<Body>): Body
    decreases |parts|
  {
    if parts == [] then front else MergeFrom(Append(front, parts[0]), parts[1..])
  }

  function Merge(parts: seq<Body>): Body {
    MergeFrom(Contents([], 0), parts)
  }

  lemma {:induction false} MergeSplitFrom(front: Body, b: Body)
    requires b.WholeBytes() > 0 && front.nbits == 8 * |front.bytes|
    ensures MergeFrom(front, Split(b)) == Append(front, b)
    decreases b.nbits
  {
    if b.WholeBytes() > BLOCK {
      var head, rest := Contents(b.bytes[..BLOCK], 8 * BLOCK), Contents(b.bytes[BLOCK..], b.nbits - 8 * BLOCK);
      var next := Append(front, head);
      assert Split(b)[1..] == Split(rest);
      MergeSplitFrom(next, rest);
      assert front.bytes + b.bytes[..BLOCK] + b.bytes[BLOCK..] == front.bytes + b.bytes;
    } else {
      assert Split(b)[1..] == [];
      assert MergeFrom(Append(front, b), []) == Append(front, b);
    }
  }

  /** Merging the parts in order gives back every bit, a last partial byte included. */
  lemma MergeSplit(b: Body)
    requires b.WholeBytes() > 0
    ensures Merge(Split(b)) == b
  {
    MergeSplitFrom(Contents([], 0), b);
    assert [] + b.bytes == b.bytes;
  }

  /** Every part is a message small enough for one datagram, and there is at least one. */
  lemma {:induction false} SplitParts(b: Body)
    ensures forall j :: 0 <= j < |Split(b)| ==> 0 < Split(b)[j].WholeBytes() <= BLOCK
    ensures b.WholeBytes() > 0 ==> Split(b) != []
    ensures |Split(b)| * BLOCK < |b.bytes| + BLOCK
    decreases b.nbits
  {
    if b.WholeBytes() > BLOCK {
      SplitParts(Contents(b.bytes[BLOCK..], b.nbits - 8 * BLOCK));
    }
  }

  lemma {:induction false} MergeSnoc(front: Body, parts: seq<Body>, i: nat)
    requires i < |parts|
    ensures MergeFrom(front, parts[..i + 1]) == Append(MergeFrom(front, parts[..i]), parts[i])
    decreases i
  {
    if i == 0 {
      assert parts[..1] == [parts[0]];
      assert MergeFrom(Append(front, parts[0]), []) == Append(front, parts[0]);
    } else {
      assert parts[..i + 1][1..] == parts[1..][..i] && parts[..i][1..] == parts[1..][..i - 1];
      MergeSnoc(Append(front, parts[0]), parts[1..], i - 1);
    }
  }

  /** Before each part the stream does not hold exactly one byte, and the part still fits. */
  lemma {:induction false} MergeFitsAt(front: Body, parts: seq<Body>, i: nat)
    requires MergeFits(|front.bytes|, parts) && i < |parts|
    ensures var m := MergeFrom(front, parts[..i]); |m.bytes| != 1 && |m.bytes| + |parts[i].bytes| <= MERGE_LIMIT
    decreases i
  {
    if i > 0 {
      assert parts[..i][1..] == parts[1..][..i - 1];
      MergeFitsAt(Append(front, parts[0]), parts[1..], i - 1);
    }
  }

  /** Merged streams grow only below this many bytes. */
  const MERGE_LIMIT: nat := 0xF_FFFF

  /** No part is added to a stream of exactly one byte, which growing would lose, nor beyond the growth limit. */
  predicate MergeFits(front: nat, parts: seq<Body>)
    decreases |parts|
  {
    parts == []
    || (front != 1 && front + |parts[0].bytes| <= MERGE_LIMIT && MergeFits(front + |parts[0].bytes|, parts[1..]))
  }

  lemma {:induction false} SplitFits(front: nat, b: Body)
    requires front != 1 && front + |b.bytes| <= MERGE_LIMIT
    ensures MergeFits(front, Split(b))
    decreases b.nbits
  {
    if b.WholeBytes() > BLOCK {
      var rest := Contents(b.bytes[BLOCK..], b.nbits - 8 * BLOCK);
      SplitFits(front + BLOCK, rest);
      assert Split(b)[1..] == Split(rest);
    } else if b.WholeBytes() > 0 {
      assert Split(b)[1..] == [];
      assert MergeFits(front + |b.bytes|, []);
    }
  }

  // ---- collecting parts in any order ----

  type Storage = seq<Option<Packet>>

  function EmptyStorage(n: nat): (r: Storage)
    ensures |r| == n
  {
    seq(n, _ => None)
  }

  predicate AllAvailable(s: Storage) {
    forall j :: 0 <= j < |s| ==> s[j].Some?
  }

  /** The merged packet takes its header from the first part. */
  function MergedPacket(s: Storage): Packet
    requires s != [] && AllAvailable(s)
  {
    s[0].value.(body := Merge(Bodies(s)))
  }

  function Bodies(s: Storage): (r: seq<Body>)
    requires AllAvailable(s)
    ensures |r| == |s|
  {
    seq(|s|, j requires 0 <= j < |s| => s[j].value.body)
  }
}
