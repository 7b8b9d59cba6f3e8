/** The block cipher of the authentication link: key schedule, rounds, and blocks enciphered in place. */
module Des {
  /** A machine word: an unsigned long is 64 bits wide, and block halves use the low 32. */
  datatype Word = Word(bits: bv64)

  /** A byte as its eight bits. */
  datatype Octet = Octet(bits: bv8)

  function Low(w: Word): Word {
    Word(w.bits & 0xffff_ffff)
  }

  predicate Clean(w: Word) {
    w.bits <= 0xffff_ffff
  }

  function Xor(a: Word, b: Word): Word {
    Word(a.bits ^ b.bits)
  }

  // Exchanges of bits between the halves, each at one distance.

  function Exchange4(hi: bv64, lo: bv64): (bv64, bv64) {
    var w := ((hi >> 4) ^ lo) & 0x0f0f_0f0f;
    (hi ^ (w << 4), lo ^ w)
  }

  function Exchange16(hi: bv64, lo: bv64): (bv64, bv64) {
    var w := ((hi >> 16) ^ lo) & 0x0000_ffff;
    (hi ^ (w << 16), lo ^ w)
  }

  function Exchange2(hi: bv64, lo: bv64): (bv64, bv64) {
    var w := ((hi >> 2) ^ lo) & 0x3333_3333;
    (hi ^ (w << 2), lo ^ w)
  }

  function Exchange8(hi: bv64, lo: bv64): (bv64, bv64) {
    var w := ((hi >> 8) ^ lo) & 0x00ff_00ff;
    (hi ^ (w << 8), lo ^ w)
  }

  function ExchangeOdd(a: bv64, b: bv64): (bv64, bv64) {
    var w := (a ^ b) & 0xaaaa_aaaa;
    (a ^ w, b ^ w)
  }

  function TurnLeft(a: bv64): bv64 {
    ((a << 1) | ((a >> 31) & 1)) & 0xffff_ffff
  }

  /** Turning back leaves garbage above bit 31. */
  function TurnRight(a: bv64): bv64 {
    (a << 31) | (a >> 1)
  }

  /** The bit permutation before the rounds. */
  function OpenBits(b0: bv64, b1: bv64): (bv64, bv64) {
    var (l1, r1) := Exchange4(b0, b1);
    var (l2, r2) := Exchange16(l1, r1);
    var (r3, l3) := Exchange2(r2, l2);
    var (r4, l4) := Exchange8(r3, l3);
    var (l5, r5) := ExchangeOdd(l4, TurnLeft(r4));
    (TurnLeft(l5), r5)
  }

  /** The bit permutation after the rounds, and the two words it leaves in the block. */
  function CloseBits(leftt: bv64, right: bv64): (bv64, bv64) {
    var (l1, r1) := ExchangeOdd(leftt, TurnRight(right));
    var (l2, r2) := Exchange8(TurnRight(l1), r1);
    var (l3, r3) := Exchange2(l2, r2);
    var (r4, l4) := Exchange16(r3, l3);
    Exchange4(r4, l4)
  }

  function Opening(b0: Word, b1: Word): (Word, Word) {
    var (l, r) := OpenBits(b0.bits, b1.bits);
    (Word(l), Word(r))
  }

  function Closing(leftt: Word, right: Word): (Word, Word) {
    var (c, d) := CloseBits(leftt.bits, right.bits);
    (Word(c), Word(d))
  }

  /** What closing leaves in the block is opened again with the halves exchanged. */
  lemma OpenAfterClose(l: Word, r: Word)
    requires Clean(l) && Clean(r)
    ensures var (a, b) := Closing(l, r); Opening(Low(a), Low(b)) == (r, l)
  {
  }

  lemma CloseAfterOpen(a: Word, b: Word)
    requires Clean(a) && Clean(b)
    ensures var (l, r) := Opening(a, b);
            var (c, d) := Closing(r, l);
            Low(c) == a && Low(d) == b && Clean(l) && Clean(r)
  {
  }

  // ---- rounds ----

  /** A substitution table maps six bits to a 32-bit word; its contents do not matter here. */
  type Sbox = bv6 -> bv32

  datatype Tables = Tables(sp1: Sbox, sp2: Sbox, sp3: Sbox, sp4: Sbox, sp5: Sbox, sp6: Sbox, sp7: Sbox, sp8: Sbox)

  // The six-bit fields of a word.

  function Field0(w: bv64): bv6 {
    (w & 0x3f) as bv6
  }

  function Field1(w: bv64): bv6 {
    ((w >> 8) & 0x3f) as bv6
  }

  function Field2(w: bv64): bv6 {
    ((w >> 16) & 0x3f) as bv6
  }

  function Field3(w: bv64): bv6 {
    ((w >> 24) & 0x3f) as bv6
  }

  function Pick(sp: Sbox, f: bv6): (r: bv64)
    ensures r <= 0xffff_ffff
  {
    sp(f) as bv64
  }

  /** The eight substitutions of two words. */
  function Substituted(t: Tables, w0: bv64, w1: bv64): Word {
    var f0 := Pick(t.sp7, Field0(w0)) | Pick(t.sp5, Field1(w0)) | Pick(t.sp3, Field2(w0)) | Pick(t.sp1, Field3(w0));
    var f1 := Pick(t.sp8, Field0(w1)) | Pick(t.sp6, Field1(w1)) | Pick(t.sp4, Field2(w1)) | Pick(t.sp2, Field3(w1));
    Word(f0 | f1)
  }

  function TurnedKeyed(half: bv64, k: bv64): bv64 {
    ((half << 28) | (half >> 4)) ^ k
  }

  function Keyed(half: bv64, k: bv64): bv64 {
    half ^ k
  }

  /** What one half contributes to the other under a pair of key words. */
  function Mix(t: Tables, half: Word, k0: Word, k1: Word): Word {
    Substituted(t, TurnedKeyed(half.bits, k0.bits), Keyed(half.bits, k1.bits))
  }

  lemma MixClean(t: Tables, half: Word, k0: Word, k1: Word)
    ensures Clean(Mix(t, half, k0, k1))
  {
    hide Pick;
  }

  /** One round per pair of key words; the halves change places after each. */
  function Rounds(t: Tables, l: Word, r: Word, keys: seq<Word>): (Word, Word)
    requires |keys| % 2 == 0
    decreases |keys|
  {
    if keys == [] then (l, r) else Rounds(t, r, Xor(l, Mix(t, r, keys[0], keys[1])), keys[2..])
  }

  /** The key schedule read pair by pair from the end. */
  function PairsReversed(keys: seq<Word>): (r: seq<Word>)
    requires |keys| % 2 == 0
    ensures |r| == |keys|
    decreases |keys|
  {
    if keys == [] then [] else PairsReversed(keys[2..]) + keys[..2]
  }

  lemma {:induction false} RoundsConcat(t: Tables, l: Word, r: Word, a: seq<Word>, b: seq<Word>)
    requires |a| % 2 == 0 && |b| % 2 == 0
    ensures var (x, y) := Rounds(t, l, r, a); Rounds(t, l, r, a + b) == Rounds(t, x, y, b)
    decreases |a|
  {
    hide Mix, Xor;
    if a == [] {
      assert a + b == b;
    } else {
      assert (a + b)[2..] == a[2..] + b;
      RoundsConcat(t, r, Xor(l, Mix(t, r, a[0], a[1])), a[2..], b);
    }
  }

  lemma XorTwice(a: Word, b: Word)
    ensures Xor(Xor(a, b), b) == a
  {
  }

  /** The rounds with the key pairs in reverse order undo the rounds, whatever the tables hold. */
  lemma {:induction false} RoundsUndone(t: Tables, l: Word, r: Word, keys: seq<Word>)
    requires |keys| % 2 == 0
    ensures var (x, y) := Rounds(t, l, r, keys); Rounds(t, y, x, PairsReversed(keys)) == (r, l)
    decreases |keys|
  {
    hide Mix, Xor;
    if keys != [] {
      var l1 := Xor(l, Mix(t, r, keys[0], keys[1]));
      var (x, y) := Rounds(t, l, r, keys);
      RoundsUndone(t, r, l1, keys[2..]);
      RoundsConcat(t, y, x, PairsReversed(keys[2..]), keys[..2]);
      assert Rounds(t, l1, r, keys[..2]) == (r, Xor(l1, Mix(t, r, keys[0], keys[1]))) by {
        assert keys[..2][2..] == [];
      }
      XorTwice(l, Mix(t, r, keys[0], keys[1]));
    }
  }

  lemma {:induction false} RoundsClean(t: Tables, l: Word, r: Word, keys: seq<Word>)
    requires |keys| % 2 == 0 && Clean(l) && Clean(r)
    ensures var (x, y) := Rounds(t, l, r, keys); Clean(x) && Clean(y)
    decreases |keys|
  {
    hide Mix, Xor, Clean;
    if keys != [] {
      MixClean(t, r, keys[0], keys[1]);
      XorClean(l, Mix(t, r, keys[0], keys[1]));
      RoundsClean(t, r, Xor(l, Mix(t, r, keys[0], keys[1])), keys[2..]);
    }
  }

  lemma XorClean(a: Word, b: Word)
    requires Clean(a) && Clean(b)
    ensures Clean(Xor(a, b))
  {
  }

  /** The two words of a block after the whole cipher; only their low 32 bits are stored. */
  function Cipher(t: Tables, b0: Word, b1: Word, keys: seq<Word>): (Word, Word)
    requires |keys| % 2 == 0
  {
    var (l, r) := Opening(b0, b1);
    var (x, y) := Rounds(t, l, r, keys);
    Closing(x, y)
  }

  lemma CipherUndone(t: Tables, b0: Word, b1: Word, keys: seq<Word>)
    requires |keys| % 2 == 0 && Clean(b0) && Clean(b1)
    ensures var (c, d) := Cipher(t, b0, b1, keys);
            var (e, f) := Cipher(t, Low(c), Low(d), PairsReversed(keys));
            Low(e) == b0 && Low(f) == b1
  {
    hide Opening, Closing, Mix, Xor, Low, Clean, Rounds, PairsReversed;
    var (l, r) := Opening(b0, b1);
    CloseAfterOpen(b0, b1);
    var (x, y) := Rounds(t, l, r, keys);
    RoundsClean(t, l, r, keys);
    OpenAfterClose(x, y);
    RoundsUndone(t, l, r, keys);
  }

  /** The cipher on a block of two words, in place: eight pairs of rounds. */
  method DesFunc(t: Tables, block: array<Word>, keys: seq<Word>)
    requires block.Length == 2 && |keys| == KEY_WORDS
    modifies block
    ensures (block[0], block[1]) == Cipher(t, old(block[0]), old(block[1]), keys)
  {
    hide Opening, Closing, Mix, Xor;
    var (leftt, right) := Opening(block[0], block[1]);
    ghost var done := Rounds(t, leftt, right, keys);
    var k := 0;
    assert keys[0..] == keys;
    for round := 0 to 8
      invariant k == 4 * round
      invariant Rounds(t, leftt, right, keys[k..]) == done
    {
      TwoRounds(t, leftt, right, keys[k..]);
      leftt := Xor(leftt, Mix(t, right, keys[k], keys[k + 1]));
      right := Xor(right, Mix(t, leftt, keys[k + 2], keys[k + 3]));
      assert keys[k..][4..] == keys[k + 4..];
      k := k + 4;
    }
    var out := Closing(leftt, right);
    block[0], block[1] := out.0, out.1;
  }

  lemma TwoRounds(t: Tables, l: Word, r: Word, keys: seq<Word>)
    requires |keys| % 2 == 0 && |keys| >= 4
    ensures var l1 := Xor(l, Mix(t, r, keys[0], keys[1]));
            Rounds(t, l, r, keys) == Rounds(t, l1, Xor(r, Mix(t, l1, keys[2], keys[3])), keys[4..])
  {
    hide Mix, Xor;
    assert keys[2..][2..] == keys[4..];
  }

  // ---- blocks ----

  const KEY_WORDS: nat := 32
  const BLOCK_BYTES: nat := 8

  /** Four bytes, the most significant first. */
  function Scrunch(b0: Octet, b1: Octet, b2: Octet, b3: Octet): (w: Word)
    ensures Clean(w)
  {
    Word((b0.bits as bv64 << 24) | (b1.bits as bv64 << 16) | (b2.bits as bv64 << 8) | b3.bits as bv64)
  }

  function Unscrun(w: Word): (r: seq<Octet>)
    ensures |r| == 4
  {
    [Octet(((w.bits >> 24) & 0xff) as bv8), Octet(((w.bits >> 16) & 0xff) as bv8),
     Octet(((w.bits >> 8) & 0xff) as bv8), Octet((w.bits & 0xff) as bv8)]
  }

  lemma UnscrunScrunch(b0: Octet, b1: Octet, b2: Octet, b3: Octet)
    ensures Unscrun(Scrunch(b0, b1, b2, b3)) == [b0, b1, b2, b3]
  {
  }

  lemma ScrunchUnscrun(w: Word)
    ensures var r := Unscrun(w); Scrunch(r[0], r[1], r[2], r[3]) == Low(w)
  {
  }

  function Block(t: Tables, s: seq<Octet>, keys: seq<Word>): (r: seq<Octet>)
    requires |s| == BLOCK_BYTES && |keys| % 2 == 0
    ensures |r| == BLOCK_BYTES
  {
    var (c, d) := Cipher(t, Scrunch(s[0], s[1], s[2], s[3]), Scrunch(s[4], s[5], s[6], s[7]), keys);
    Unscrun(c) + Unscrun(d)
  }

  lemma LowUnscrun(w: Word)
    ensures Unscrun(Low(w)) == Unscrun(w)
  {
  }

  lemma BlockUndone(t: Tables, s: seq<Octet>, keys: seq<Word>)
    requires |s| == BLOCK_BYTES && |keys| % 2 == 0
    ensures Block(t, Block(t, s, keys), PairsReversed(keys)) == s
  {
    hide Scrunch, Unscrun, Cipher, PairsReversed, Low;
    var a, b := Scrunch(s[0], s[1], s[2], s[3]), Scrunch(s[4], s[5], s[6], s[7]);
    var (c, d) := Cipher(t, a, b, keys);
    var (e, f) := Cipher(t, Low(c), Low(d), PairsReversed(keys));
    ScrunchUnscrun(c);
    ScrunchUnscrun(d);
    CipherUndone(t, a, b, keys);
    LowUnscrun(e);
    LowUnscrun(f);
    UnscrunScrunch(s[0], s[1], s[2], s[3]);
    UnscrunScrunch(s[4], s[5], s[6], s[7]);
    assert [s[0], s[1], s[2], s[3]] + [s[4], s[5], s[6], s[7]] == s;
  }

  /** Every whole block; bytes after the last one stay as they are. */
  function Blocks(t: Tables, s: seq<Octet>, keys: seq<Word>): (r: seq<Octet>)
    requires |keys| % 2 == 0
    ensures |r| == |s|
    decreases |s|
  {
    if |s| < BLOCK_BYTES then s else Block(t, s[..BLOCK_BYTES], keys) + Blocks(t, s[BLOCK_BYTES..], keys)
  }

  /** Deciphering with the reversed schedule restores a buffer of any length. */
  lemma {:induction false} BlocksUndone(t: Tables, s: seq<Octet>, keys: seq<Word>)
    requires |keys| % 2 == 0
    ensures Blocks(t, Blocks(t, s, keys), PairsReversed(keys)) == s
    decreases |s|
  {
    hide Block, PairsReversed;
    if |s| >= BLOCK_BYTES {
      var c := Blocks(t, s, keys);
      assert c[..BLOCK_BYTES] == Block(t, s[..BLOCK_BYTES], keys)
          && c[BLOCK_BYTES..] == Blocks(t, s[BLOCK_BYTES..], keys);
      BlockUndone(t, s[..BLOCK_BYTES], keys);
      BlocksUndone(t, s[BLOCK_BYTES..], keys);
    }
  }

  /** A buffer after the block at cp was enciphered. */
  function BlockAt(t: Tables, s: seq<Octet>, cp: nat, keys: seq<Word>): seq<Octet>
    requires cp + BLOCK_BYTES <= |s| && |keys| % 2 == 0
  {
    s[..cp] + Block(t, s[cp..cp + BLOCK_BYTES], keys) + s[cp + BLOCK_BYTES..]
  }

  /** One block, in place. */
  method CodeBlock(t: Tables, buffer: array<Octet>, cp: nat, keys: seq<Word>)
    requires cp + BLOCK_BYTES <= buffer.Length && |keys| == KEY_WORDS
    modifies buffer
    ensures buffer[..] == BlockAt(t, old(buffer[..]), cp, keys)
  {
    hide Cipher, Scrunch, Unscrun;
    ghost var whole, s := buffer[..], buffer[cp..cp + BLOCK_BYTES];
    assert whole[cp..cp + BLOCK_BYTES] == s;
    var work := new Word[2];
    work[0] := Scrunch(buffer[cp], buffer[cp + 1], buffer[cp + 2], buffer[cp + 3]);
    work[1] := Scrunch(buffer[cp + 4], buffer[cp + 5], buffer[cp + 6], buffer[cp + 7]);
    DesFunc(t, work, keys);
    var out := Unscrun(work[0]) + Unscrun(work[1]);
    assert out == Block(t, s, keys);
    forall j | 0 <= j < BLOCK_BYTES { buffer[cp + j] := out[j]; }
  }

  /** Every whole block among the size bytes from at on, in place; everything else stays as it is. */
  method CodeBlocks(t: Tables, buffer: array<Octet>, at: nat, size: nat, keys: seq<Word>)
    requires at + size <= buffer.Length && |keys| == KEY_WORDS
    modifies buffer
    ensures buffer[..] == old(buffer[..at]) + Blocks(t, old(buffer[at..at + size]), keys) + old(buffer[at + size..])
  {
    hide Block, Blocks, BlockAt;
    ghost var front, s, back := buffer[..at], buffer[at..at + size], buffer[at + size..];
    ghost var done: seq<Octet>, rest := [], s;
    var blocks := size / BLOCK_BYTES;
    var cp := at;
    for i := 0 to blocks
      invariant cp == at + |done| && |rest| == size - BLOCK_BYTES * i
      invariant buffer[..] == front + done + rest + back
      invariant done + Blocks(t, rest, keys) == Blocks(t, s, keys)
    {
      NextBlock(t, front, done, rest, back, keys);
      CodeBlock(t, buffer, cp, keys);
      done := done + Block(t, rest[..BLOCK_BYTES], keys);
      rest := rest[BLOCK_BYTES..];
      cp := cp + BLOCK_BYTES;
    }
    NoBlock(t, rest, keys);
  }

  lemma NextBlock(t: Tables, front: seq<Octet>, done: seq<Octet>, rest: seq<Octet>, back: seq<Octet>, keys: seq<Word>)
    requires |rest| >= BLOCK_BYTES && |keys| % 2 == 0
    ensures var all, cp := front + done + rest + back, |front| + |done|;
            var out := Block(t, rest[..BLOCK_BYTES], keys);
            && |all| >= cp + BLOCK_BYTES
            && BlockAt(t, all, cp, keys) == front + (done + out) + rest[BLOCK_BYTES..] + back
            && done + Blocks(t, rest, keys) == (done + out) + Blocks(t, rest[BLOCK_BYTES..], keys)
  {
    hide Block;
    var all, cp := front + done + rest + back, |front| + |done|;
    assert all[cp..cp + BLOCK_BYTES] == rest[..BLOCK_BYTES];
  }

  lemma NoBlock(t: Tables, rest: seq<Octet>, keys: seq<Word>)
    requires |rest| < BLOCK_BYTES && |keys| % 2 == 0
    ensures Blocks(t, rest, keys) == rest
  {
  }
}
