/** The key schedule of the block cipher, and why deciphering undoes enciphering. */
module DesKeys {
  import opened Des

  datatype Direction = Encipher | Decipher

  const ROUNDS: nat := 16
  const KEY_BITS: nat := 56

  const BYTE_BIT: seq<bv8> := [0x80, 0x40, 0x20, 0x10, 0x08, 0x04, 0x02, 0x01]

  const BIG_BYTE: seq<Word> :=
    [Word(0x80_0000), Word(0x40_0000), Word(0x20_0000), Word(0x10_0000),
     Word(0x8_0000), Word(0x4_0000), Word(0x2_0000), Word(0x1_0000)]
    + [Word(0x8000), Word(0x4000), Word(0x2000), Word(0x1000), Word(0x800), Word(0x400), Word(0x200), Word(0x100)]
    + [Word(0x80), Word(0x40), Word(0x20), Word(0x10), Word(0x8), Word(0x4), Word(0x2), Word(0x1)]

  type BitOfKey = x: nat | x < 64
  type BitOfHalves = x: nat | x < KEY_BITS
  type Rotation = x: nat | x <= 28

  const PC1: seq<BitOfKey> :=
    [56, 48, 40, 32, 24, 16, 8, 0, 57, 49, 41, 33, 25, 17]
    + [9, 1, 58, 50, 42, 34, 26, 18, 10, 2, 59, 51, 43, 35]
    + [62, 54, 46, 38, 30, 22, 14, 6, 61, 53, 45, 37, 29, 21]
    + [13, 5, 60, 52, 44, 36, 28, 20, 12, 4, 27, 19, 11, 3]

  const TOT_ROT: seq<Rotation> := [1, 2, 4, 6, 8, 10, 12, 14, 15, 17, 19, 21, 23, 25, 27, 28]

  const PC2: seq<BitOfHalves> :=
    [13, 16, 10, 23, 0, 4, 2, 27, 14, 5, 20, 9]
    + [22, 18, 11, 3, 25, 7, 15, 6, 26, 19, 12, 1]
    + [40, 51, 30, 36, 46, 54, 29, 39, 50, 44, 32, 47]
    + [43, 48, 38, 55, 33, 52, 45, 41, 49, 35, 28, 31]

  /** The bits of the key in the order of the first choice. */
  function ChosenBit(key: seq<Octet>, l: BitOfKey): bool
    requires |key| == BLOCK_BYTES
  {
    key[l / 8].bits & BYTE_BIT[l % 8] != 0
  }

  function Chosen(key: seq<Octet>): (r: seq<bool>)
    requires |key| == BLOCK_BYTES
    ensures |r| == KEY_BITS
  {
    seq(KEY_BITS, j requires 0 <= j < KEY_BITS => ChosenBit(key, PC1[j]))
  }

  /** Where bit j of the rotated halves comes from. */
  function Source(i: nat, j: nat): (l: nat)
    requires i < ROUNDS && j < KEY_BITS
    ensures l < KEY_BITS
  {
    var l := j + TOT_ROT[i];
    if l < (if j < 28 then 28 else KEY_BITS) then l else l - 28
  }

  function Rotated(c: seq<bool>, i: nat): (r: seq<bool>)
    requires |c| == KEY_BITS && i < ROUNDS
    ensures |r| == KEY_BITS
  {
    seq(KEY_BITS, j requires 0 <= j < KEY_BITS => c[Source(i, j)])
  }

  function Or(a: Word, b: Word): Word {
    Word(a.bits | b.bits)
  }

  /** The second choice: n bits of one word of a pair. */
  function Gathered(r: seq<bool>, half: nat, n: nat): Word
    requires |r| == KEY_BITS && half < 2 && n <= 24
  {
    if n == 0 then Word(0)
    else if r[PC2[n - 1 + 24 * half]] then Or(Gathered(r, half, n - 1), BIG_BYTE[n - 1])
    else Gathered(r, half, n - 1)
  }

  function Raw(key: seq<Octet>, i: nat, half: nat): Word
    requires |key| == BLOCK_BYTES && i < ROUNDS && half < 2
  {
    Gathered(Rotated(Chosen(key), i), half, 24)
  }

  function CookFirst(raw0: Word, raw1: Word): Word {
    Word(((raw0.bits & 0x00fc_0000) << 6) | ((raw0.bits & 0x0000_0fc0) << 10)
         | ((raw1.bits & 0x00fc_0000) >> 10) | ((raw1.bits & 0x0000_0fc0) >> 6))
  }

  function CookSecond(raw0: Word, raw1: Word): Word {
    Word(((raw0.bits & 0x0003_f000) << 12) | ((raw0.bits & 0x0000_003f) << 16)
         | ((raw1.bits & 0x0003_f000) >> 4) | (raw1.bits & 0x0000_003f))
  }

  /** The pair of key words of round i. */
  function Pair(key: seq<Octet>, i: nat): seq<Word>
    requires |key| == BLOCK_BYTES && i < ROUNDS
  {
    [CookFirst(Raw(key, i, 0), Raw(key, i, 1)), CookSecond(Raw(key, i, 0), Raw(key, i, 1))]
  }

  /** The pair of words the schedule gives to round i. */
  function Slot(edf: Direction, i: nat): nat
    requires i < ROUNDS
  {
    if edf == Decipher then ROUNDS - 1 - i else i
  }

  function Schedule(key: seq<Octet>, edf: Direction): (r: seq<Word>)
    requires |key| == BLOCK_BYTES
    ensures |r| == KEY_WORDS
  {
    seq(KEY_WORDS, p requires 0 <= p < KEY_WORDS => Pair(key, Slot(edf, p / 2))[p % 2])
  }

  // ---- the schedule is computed in place ----

  method Choose(key: seq<Octet>) returns (pc1m: array<bool>)
    requires |key| == BLOCK_BYTES
    ensures fresh(pc1m) && pc1m[..] == Chosen(key)
  {
    hide ChosenBit;
    pc1m := new bool[KEY_BITS];
    for j := 0 to KEY_BITS
      invariant forall q :: 0 <= q < j ==> pc1m[q] == ChosenBit(key, PC1[q])
    {
      pc1m[j] := ChosenBit(key, PC1[j]);
    }
  }

  method Rotate(pc1m: array<bool>, pcr: array<bool>, i: nat)
    requires pc1m.Length == KEY_BITS && pcr.Length == KEY_BITS && pc1m != pcr && i < ROUNDS
    modifies pcr
    ensures pcr[..] == Rotated(pc1m[..], i)
  {
    for j := 0 to 28
      invariant forall q :: 0 <= q < j ==> pcr[q] == pc1m[Source(i, q)]
    {
      var turn: nat := TOT_ROT[i];
      var l := j + turn;
      pcr[j] := if l < 28 then pc1m[l] else pc1m[l - 28];
    }
    for j := 28 to KEY_BITS
      invariant forall q :: 0 <= q < j ==> pcr[q] == pc1m[Source(i, q)]
    {
      var turn: nat := TOT_ROT[i];
      var l := j + turn;
      pcr[j] := if l < KEY_BITS then pc1m[l] else pc1m[l - 28];
    }
  }

  lemma GatherNone(r: seq<bool>)
    requires |r| == KEY_BITS
    ensures Gathered(r, 0, 0) == Word(0) && Gathered(r, 1, 0) == Word(0)
  {
  }

  /** One more bit of both words. */
  lemma GatherNext(r: seq<bool>, j: nat)
    requires |r| == KEY_BITS && j < 24
    ensures Gathered(r, 0, j + 1) == if r[PC2[j]] then Or(Gathered(r, 0, j), BIG_BYTE[j]) else Gathered(r, 0, j)
    ensures Gathered(r, 1, j + 1) == if r[PC2[j + 24]] then Or(Gathered(r, 1, j), BIG_BYTE[j]) else Gathered(r, 1, j)
  {
    hide Or;
  }

  method Gather(pcr: array<bool>, kn: array<Word>, m: nat)
    requires pcr.Length == KEY_BITS && kn.Length == KEY_WORDS && m + 1 < KEY_WORDS
    modifies kn
    ensures kn[m] == Gathered(pcr[..], 0, 24) && kn[m + 1] == Gathered(pcr[..], 1, 24)
    ensures forall q :: 0 <= q < KEY_WORDS && q != m && q != m + 1 ==> kn[q] == old(kn[q])
  {
    hide Or, Gathered;
    var n := m + 1;
    GatherNone(pcr[..]);
    kn[m], kn[n] := Word(0), Word(0);
    for j := 0 to 24
      invariant kn[m] == Gathered(pcr[..], 0, j) && kn[n] == Gathered(pcr[..], 1, j)
      invariant forall q :: 0 <= q < KEY_WORDS && q != m && q != n ==> kn[q] == old(kn[q])
    {
      GatherNext(pcr[..], j);
      if pcr[PC2[j]] { kn[m] := Or(kn[m], BIG_BYTE[j]); }
      if pcr[PC2[j + 24]] { kn[n] := Or(kn[n], BIG_BYTE[j]); }
    }
  }

  /** Cooks the raw pairs one after the other. */
  method CookKey(raw: array<Word>) returns (dough: seq<Word>)
    requires raw.Length == KEY_WORDS
    ensures |dough| == KEY_WORDS
    ensures forall i :: 0 <= i < ROUNDS ==>
        dough[2 * i] == CookFirst(raw[2 * i], raw[2 * i + 1])
            && dough[2 * i + 1] == CookSecond(raw[2 * i], raw[2 * i + 1])
  {
    hide CookFirst, CookSecond;
    dough := [];
    for i := 0 to ROUNDS
      invariant |dough| == 2 * i
      invariant forall q :: 0 <= q < i ==>
          dough[2 * q] == CookFirst(raw[2 * q], raw[2 * q + 1])
              && dough[2 * q + 1] == CookSecond(raw[2 * q], raw[2 * q + 1])
    {
      dough := dough + [CookFirst(raw[2 * i], raw[2 * i + 1]), CookSecond(raw[2 * i], raw[2 * i + 1])];
    }
  }

  /** The key words of all rounds; deciphering stores the pairs from the end. */
  method DesKey(key: seq<Octet>, edf: Direction) returns (dough: seq<Word>)
    requires |key| == BLOCK_BYTES
    ensures dough == Schedule(key, edf)
  {
    hide Gathered, Rotated, Chosen, CookFirst, CookSecond;
    var pc1m := Choose(key);
    var pcr, kn := new bool[KEY_BITS], new Word[KEY_WORDS];
    for i := 0 to ROUNDS
      invariant pc1m[..] == Chosen(key)
      invariant forall q :: 0 <= q < i ==>
                kn[2 * Slot(edf, q)] == Raw(key, q, 0) && kn[2 * Slot(edf, q) + 1] == Raw(key, q, 1)
    {
      var m := 2 * Slot(edf, i);
      Rotate(pc1m, pcr, i);
      Gather(pcr, kn, m);
    }
    dough := CookKey(kn);
    forall p | 0 <= p < KEY_WORDS
      ensures dough[p] == Pair(key, Slot(edf, p / 2))[p % 2]
    {
      var q := Slot(edf, p / 2);
      assert kn[2 * Slot(edf, q)] == Raw(key, q, 0);
      assert p == 2 * (p / 2) || p == 2 * (p / 2) + 1;
    }
  }

  /** The deciphering schedule is the enciphering one with its sixteen pairs reversed. */
  lemma ScheduleReversed(key: seq<Octet>)
    requires |key| == BLOCK_BYTES
    ensures Schedule(key, Decipher) == PairsReversed(Schedule(key, Encipher))
  {
    hide Pair;
    var e, d := Schedule(key, Encipher), Schedule(key, Decipher);
    forall p | 0 <= p < KEY_WORDS
      ensures d[p] == PairsReversed(e)[p]
    {
      ReversedAt(e, p);
    }
  }

  lemma {:induction false} ReversedAt(keys: seq<Word>, p: nat)
    requires |keys| % 2 == 0 && p < |keys|
    ensures PairsReversed(keys)[p] == keys[|keys| - 2 - p / 2 * 2 + p % 2]
    decreases |keys|
  {
    if p < |keys| - 2 { ReversedAt(keys[2..], p); }
  }

  /** For every key, every table contents and every length, deciphering restores what was enciphered. */
  lemma DecipherUndoesEncipher(t: Tables, s: seq<Octet>, key: seq<Octet>)
    requires |key| == BLOCK_BYTES
    ensures Blocks(t, Blocks(t, s, Schedule(key, Encipher)), Schedule(key, Decipher)) == s
  {
    hide Schedule, Blocks;
    ScheduleReversed(key);
    BlocksUndone(t, s, Schedule(key, Encipher));
  }

  /** Bytes past the last whole block are untouched. */
  lemma {:induction false} TailUntouched(t: Tables, s: seq<Octet>, keys: seq<Word>)
    requires |keys| % 2 == 0
    ensures Blocks(t, s, keys)[|s| / BLOCK_BYTES * BLOCK_BYTES..] == s[|s| / BLOCK_BYTES * BLOCK_BYTES..]
    decreases |s|
  {
    hide Block;
    if |s| >= BLOCK_BYTES {
      var rest := s[BLOCK_BYTES..];
      TailUntouched(t, rest, keys);
      assert |s| / BLOCK_BYTES == |rest| / BLOCK_BYTES + 1;
      var k := |rest| / BLOCK_BYTES * BLOCK_BYTES;
      assert Blocks(t, s, keys)[BLOCK_BYTES + k..] == Blocks(t, rest, keys)[k..];
      assert s[BLOCK_BYTES + k..] == rest[k..];
    }
  }
}
