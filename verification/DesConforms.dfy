/** The whole cipher against FIPS 46-3: permutations, expansion, substitution and sixteen rounds. */
module DesConforms {
  import opened Des
  import opened DesKeys
  import opened DesTables
  import opened DesBoxes
  import opened DesStandard

  // ---- the standard's cipher, on words whose bits are counted from the most significant one ----

  /** Bit k of the eight bytes of a block, from the last byte to the first. */
  function Slice(b0: bv64, b1: bv64, k: bv64): bv64
    requires 1 <= k <= 8
  {
    (((b1 >> (8 - k)) & 1) << 7) | (((b1 >> (16 - k)) & 1) << 6) | (((b1 >> (24 - k)) & 1) << 5)
    | (((b1 >> (32 - k)) & 1) << 4) | (((b0 >> (8 - k)) & 1) << 3) | (((b0 >> (16 - k)) & 1) << 2)
    | (((b0 >> (24 - k)) & 1) << 1) | ((b0 >> (32 - k)) & 1)
  }

  /** The initial permutation: rows 58, 60, 62, 64 and 57, 59, 61, 63 of eight bits in steps of eight. */
  function InitialL(b0: bv64, b1: bv64): bv64 {
    (Slice(b0, b1, 2) << 24) | (Slice(b0, b1, 4) << 16) | (Slice(b0, b1, 6) << 8) | Slice(b0, b1, 8)
  }

  function InitialR(b0: bv64, b1: bv64): bv64 {
    (Slice(b0, b1, 1) << 24) | (Slice(b0, b1, 3) << 16) | (Slice(b0, b1, 5) << 8) | Slice(b0, b1, 7)
  }

  lemma OpeningL(b0: bv64, b1: bv64)
    requires b0 <= 0xffff_ffff && b1 <= 0xffff_ffff
    ensures OpenBits(b0, b1).0 == TurnLeft(InitialL(b0, b1))
  {
  }

  lemma OpeningR(b0: bv64, b1: bv64)
    requires b0 <= 0xffff_ffff && b1 <= 0xffff_ffff
    ensures OpenBits(b0, b1).1 == TurnLeft(InitialR(b0, b1))
  {
  }

  // ---- the expansion ----

  /** Six bits of a half for box s, from bit 4 s on and wrapping around. */
  function Expanded(r: bv64, s: nat): bv6
    requires s < 8
  {
    match s
    case 0 => (((r << 5) | (r >> 27)) & 0x3f) as bv6
    case 1 => ((r >> 23) & 0x3f) as bv6
    case 2 => ((r >> 19) & 0x3f) as bv6
    case 3 => ((r >> 15) & 0x3f) as bv6
    case 4 => ((r >> 11) & 0x3f) as bv6
    case 5 => ((r >> 7) & 0x3f) as bv6
    case 6 => ((r >> 3) & 0x3f) as bv6
    case _ => (((r << 1) | (r >> 31)) & 0x3f) as bv6
  }

  function Combined(a: bv6, b: bv6): bv6 {
    a ^ b
  }

  lemma Expanded0(r: bv64, k: bv64)
    requires r <= 0xffff_ffff
    ensures Field3(TurnedKeyed(TurnLeft(r), k)) == Combined(Expanded(r, 0), Field3(k))
  {
  }

  lemma Expanded2(r: bv64, k: bv64)
    requires r <= 0xffff_ffff
    ensures Field2(TurnedKeyed(TurnLeft(r), k)) == Combined(Expanded(r, 2), Field2(k))
  {
  }

  lemma Expanded4(r: bv64, k: bv64)
    requires r <= 0xffff_ffff
    ensures Field1(TurnedKeyed(TurnLeft(r), k)) == Combined(Expanded(r, 4), Field1(k))
  {
  }

  lemma Expanded6(r: bv64, k: bv64)
    requires r <= 0xffff_ffff
    ensures Field0(TurnedKeyed(TurnLeft(r), k)) == Combined(Expanded(r, 6), Field0(k))
  {
  }

  lemma Expanded1(r: bv64, k: bv64)
    requires r <= 0xffff_ffff
    ensures Field3(Keyed(TurnLeft(r), k)) == Combined(Expanded(r, 1), Field3(k))
  {
  }

  lemma Expanded3(r: bv64, k: bv64)
    requires r <= 0xffff_ffff
    ensures Field2(Keyed(TurnLeft(r), k)) == Combined(Expanded(r, 3), Field2(k))
  {
  }

  lemma Expanded5(r: bv64, k: bv64)
    requires r <= 0xffff_ffff
    ensures Field1(Keyed(TurnLeft(r), k)) == Combined(Expanded(r, 5), Field1(k))
  {
  }

  lemma Expanded7(r: bv64, k: bv64)
    requires r <= 0xffff_ffff
    ensures Field0(Keyed(TurnLeft(r), k)) == Combined(Expanded(r, 7), Field0(k))
  {
  }

  // ---- the round function ----

  function Joined8(b1: bv64, b2: bv64, b3: bv64, b4: bv64, b5: bv64, b6: bv64, b7: bv64, b8: bv64): bv64 {
    b1 | b2 | b3 | b4 | b5 | b6 | b7 | b8
  }

  /** The function f of the standard: expansion, round key, boxes and permutation. */
  function CipherFunction(r: bv64, k: seq<bv6>): bv64
    requires |k| == 8
  {
    Joined8(Box1(Combined(Expanded(r, 0), k[0])), Box2(Combined(Expanded(r, 1), k[1])),
            Box3(Combined(Expanded(r, 2), k[2])), Box4(Combined(Expanded(r, 3), k[3])),
            Box5(Combined(Expanded(r, 4), k[4])), Box6(Combined(Expanded(r, 5), k[5])),
            Box7(Combined(Expanded(r, 6), k[6])), Box8(Combined(Expanded(r, 7), k[7])))
  }

  lemma Reordered(b1: bv64, b2: bv64, b3: bv64, b4: bv64, b5: bv64, b6: bv64, b7: bv64, b8: bv64)
    ensures (b7 | b5 | b3 | b1) | (b8 | b6 | b4 | b2) == Joined8(b1, b2, b3, b4, b5, b6, b7, b8)
  {
  }

  lemma TurnedJoined(b1: bv64, b2: bv64, b3: bv64, b4: bv64, b5: bv64, b6: bv64, b7: bv64, b8: bv64)
    ensures TurnLeft(Joined8(b1, b2, b3, b4, b5, b6, b7, b8))
            == Joined8(TurnLeft(b1), TurnLeft(b2), TurnLeft(b3), TurnLeft(b4), TurnLeft(b5), TurnLeft(b6), TurnLeft(b7),
                       TurnLeft(b8))
  {
  }

  lemma Picked(w0: bv64, w1: bv64)
    ensures Substituted(CODEC_TABLES, w0, w1)
            == Word(Joined8(Pick(Sp1, Field3(w0)), Pick(Sp2, Field3(w1)), Pick(Sp3, Field2(w0)), Pick(Sp4, Field2(w1)),
                            Pick(Sp5, Field1(w0)), Pick(Sp6, Field1(w1)), Pick(Sp7, Field0(w0)), Pick(Sp8, Field0(w1))))
  {
    hide Joined8, Sp1, Sp2, Sp3, Sp4, Sp5, Sp6, Sp7, Sp8, Field0, Field1, Field2, Field3;
    Reordered(Pick(Sp1, Field3(w0)), Pick(Sp2, Field3(w1)), Pick(Sp3, Field2(w0)), Pick(Sp4, Field2(w1)),
              Pick(Sp5, Field1(w0)), Pick(Sp6, Field1(w1)), Pick(Sp7, Field0(w0)), Pick(Sp8, Field0(w1)));
  }

  /** The eight tables are the boxes and the permutation, in words turned left by one. */
  lemma Boxed(w0: bv64, w1: bv64)
    ensures Substituted(CODEC_TABLES, w0, w1)
            == Word(TurnLeft(Joined8(Box1(Field3(w0)), Box2(Field3(w1)), Box3(Field2(w0)), Box4(Field2(w1)),
                                     Box5(Field1(w0)), Box6(Field1(w1)), Box7(Field0(w0)), Box8(Field0(w1)))))
  {
    hide Joined8, TurnLeft, Pick, Substituted, Box1, Box2, Box3, Box4, Box5, Box6, Box7, Box8, Field0, Field1, Field2,
         Field3;
    Picked(w0, w1);
    Box1IsStandard(Field3(w0));
    Box2IsStandard(Field3(w1));
    Box3IsStandard(Field2(w0));
    Box4IsStandard(Field2(w1));
    Box5IsStandard(Field1(w0));
    Box6IsStandard(Field1(w1));
    Box7IsStandard(Field0(w0));
    Box8IsStandard(Field0(w1));
    TurnedJoined(Box1(Field3(w0)), Box2(Field3(w1)), Box3(Field2(w0)), Box4(Field2(w1)), Box5(Field1(w0)),
                 Box6(Field1(w1)), Box7(Field0(w0)), Box8(Field0(w1)));
  }

  lemma BoxKeys(pair: seq<Word>)
    requires |pair| == 2
    ensures BoxKey(pair, 0) == Field3(pair[0].bits) && BoxKey(pair, 1) == Field3(pair[1].bits)
    ensures BoxKey(pair, 2) == Field2(pair[0].bits) && BoxKey(pair, 3) == Field2(pair[1].bits)
    ensures BoxKey(pair, 4) == Field1(pair[0].bits) && BoxKey(pair, 5) == Field1(pair[1].bits)
    ensures BoxKey(pair, 6) == Field0(pair[0].bits) && BoxKey(pair, 7) == Field0(pair[1].bits)
  {
    hide Field0, Field1, Field2, Field3;
  }

  /** What one half contributes to the other is the function f, in words turned left by one. */
  lemma MixIsStandard(r: bv64, pair: seq<Word>, k: seq<bv6>)
    requires r <= 0xffff_ffff && |pair| == 2 && |k| == 8 && forall s :: 0 <= s < 8 ==> k[s] == BoxKey(pair, s)
    ensures Mix(CODEC_TABLES, Word(TurnLeft(r)), pair[0], pair[1]) == Word(TurnLeft(CipherFunction(r, k)))
  {
    hide Joined8, Combined, Substituted, Box1, Box2, Box3, Box4, Box5, Box6, Box7, Box8, Expanded, TurnLeft, Field0,
         Field1, Field2, Field3, TurnedKeyed, Keyed, BoxKey;
    var h, k0, k1 := TurnLeft(r), pair[0].bits, pair[1].bits;
    BoxKeys(pair);
    Expanded0(r, k0);
    Expanded1(r, k1);
    Expanded2(r, k0);
    Expanded3(r, k1);
    Expanded4(r, k0);
    Expanded5(r, k1);
    Expanded6(r, k0);
    Expanded7(r, k1);
    Boxed(TurnedKeyed(h, k0), Keyed(h, k1));
  }

  // ---- the round keys ----

  /** Six bits as a number, the first one the most significant. */
  function SixNumber(b: seq<bool>): bv6
    requires |b| == 6
  {
    (if b[0] then 0x20 else 0) | (if b[1] then 0x10 else 0) | (if b[2] then 0x08 else 0)
    | (if b[3] then 0x04 else 0) | (if b[4] then 0x02 else 0) | (if b[5] then 0x01 else 0)
  }

  lemma SixNumberIs(f: bv6, b: seq<bool>)
    requires |b| == 6 && forall k :: 0 <= k < 6 ==> (f & SIX_BIT[k] != 0 <==> b[k])
    ensures f == SixNumber(b)
  {
    SixMasks();
    assert f & SIX_BIT[0] != 0 <==> b[0];
    assert f & SIX_BIT[1] != 0 <==> b[1];
    assert f & SIX_BIT[2] != 0 <==> b[2];
    assert f & SIX_BIT[3] != 0 <==> b[3];
    assert f & SIX_BIT[4] != 0 <==> b[4];
    assert f & SIX_BIT[5] != 0 <==> b[5];
  }

  lemma SixMasks()
    ensures SIX_BIT[0] == 0x20 && SIX_BIT[1] == 0x10 && SIX_BIT[2] == 0x08 && SIX_BIT[3] == 0x04 && SIX_BIT[4] == 0x02
            && SIX_BIT[5] == 0x01
  {
  }

  /** The 48 bits of round i as eight numbers. */
  function RoundKey(key: seq<Octet>, i: nat): (r: seq<bv6>)
    requires |key| == BLOCK_BYTES && 1 <= i <= ROUNDS
    ensures |r| == 8
  {
    seq(8, s requires 0 <= s < 8 => SixNumber(Subkey(key, i)[6 * s..6 * s + 6]))
  }

  lemma RoundKeyIs(key: seq<Octet>, i: nat, s: nat)
    requires |key| == BLOCK_BYTES && i < ROUNDS && s < 8
    ensures RoundKey(key, i + 1)[s] == BoxKey(Pair(key, i), s)
  {
    hide Raw, CookFirst, CookSecond, BoxKey, Subkey, SixNumber;
    var f, b := BoxKey(Pair(key, i), s), Subkey(key, i + 1)[6 * s..6 * s + 6];
    forall k | 0 <= k < 6
      ensures f & SIX_BIT[k] != 0 <==> b[k]
    {
      ScheduleIsStandard(key, i, s, k);
    }
    SixNumberIs(f, b);
  }

  // ---- sixteen rounds ----

  function Added(a: bv64, b: bv64): bv64 {
    a ^ b
  }

  /** The rounds of the standard from round i on, counted from zero. */
  function StandardRounds(l: bv64, r: bv64, key: seq<Octet>, i: nat): (bv64, bv64)
    requires |key| == BLOCK_BYTES && i <= ROUNDS
    decreases ROUNDS - i
  {
    if i == ROUNDS then (l, r)
    else StandardRounds(r, Added(l, CipherFunction(r, RoundKey(key, i + 1))), key, i + 1)
  }

  predicate Half(w: bv64) {
    w <= 0xffff_ffff
  }

  lemma BoxesHalf(i: bv6)
    ensures Half(Box1(i)) && Half(Box2(i)) && Half(Box3(i)) && Half(Box4(i))
    ensures Half(Box5(i)) && Half(Box6(i)) && Half(Box7(i)) && Half(Box8(i))
  {
    hide Entry;
  }

  lemma JoinedHalf(b1: bv64, b2: bv64, b3: bv64, b4: bv64, b5: bv64, b6: bv64, b7: bv64, b8: bv64)
    requires Half(b1) && Half(b2) && Half(b3) && Half(b4) && Half(b5) && Half(b6) && Half(b7) && Half(b8)
    ensures Half(Joined8(b1, b2, b3, b4, b5, b6, b7, b8))
  {
  }

  lemma FunctionHalf(r: bv64, k: seq<bv6>)
    requires |k| == 8
    ensures Half(CipherFunction(r, k))
  {
    hide Half, Joined8, Combined, Expanded, Box1, Box2, Box3, Box4, Box5, Box6, Box7, Box8;
    BoxesHalf(Combined(Expanded(r, 0), k[0]));
    BoxesHalf(Combined(Expanded(r, 1), k[1]));
    BoxesHalf(Combined(Expanded(r, 2), k[2]));
    BoxesHalf(Combined(Expanded(r, 3), k[3]));
    BoxesHalf(Combined(Expanded(r, 4), k[4]));
    BoxesHalf(Combined(Expanded(r, 5), k[5]));
    BoxesHalf(Combined(Expanded(r, 6), k[6]));
    BoxesHalf(Combined(Expanded(r, 7), k[7]));
    JoinedHalf(Box1(Combined(Expanded(r, 0), k[0])), Box2(Combined(Expanded(r, 1), k[1])),
               Box3(Combined(Expanded(r, 2), k[2])), Box4(Combined(Expanded(r, 3), k[3])),
               Box5(Combined(Expanded(r, 4), k[4])), Box6(Combined(Expanded(r, 5), k[5])),
               Box7(Combined(Expanded(r, 6), k[6])), Box8(Combined(Expanded(r, 7), k[7])));
  }

  lemma TurnedAdded(a: bv64, b: bv64)
    requires Half(a) && Half(b)
    ensures Half(Added(a, b))
    ensures Xor(Word(TurnLeft(a)), Word(TurnLeft(b))) == Word(TurnLeft(Added(a, b)))
  {
  }

  /** Two words turned left by one. */
  function Turned(h: (bv64, bv64)): (Word, Word) {
    (Word(TurnLeft(h.0)), Word(TurnLeft(h.1)))
  }

  lemma RoundMix(key: seq<Octet>, i: nat, r: bv64)
    requires |key| == BLOCK_BYTES && i < ROUNDS && Half(r)
    ensures var keys := Schedule(key, Encipher);
            Mix(CODEC_TABLES, Word(TurnLeft(r)), keys[2 * i], keys[2 * i + 1])
            == Word(TurnLeft(CipherFunction(r, RoundKey(key, i + 1))))
  {
    hide Mix, CipherFunction, RoundKey, TurnLeft, BoxKey, CookFirst, CookSecond, Raw;
    var keys := Schedule(key, Encipher);
    var pair := Pair(key, i);
    assert keys[2 * i] == pair[0] && keys[2 * i + 1] == pair[1];
    forall s | 0 <= s < 8
      ensures RoundKey(key, i + 1)[s] == BoxKey(pair, s)
    {
      RoundKeyIs(key, i, s);
    }
    MixIsStandard(r, pair, RoundKey(key, i + 1));
  }

  /** The key words from round i on. */
  function KeysFrom(key: seq<Octet>, i: nat): (r: seq<Word>)
    requires |key| == BLOCK_BYTES && i <= ROUNDS
    ensures |r| == KEY_WORDS - 2 * i
  {
    Schedule(key, Encipher)[2 * i..]
  }

  lemma RoundPair(key: seq<Octet>, i: nat)
    requires |key| == BLOCK_BYTES && i < ROUNDS
    ensures var keys, all := KeysFrom(key, i), Schedule(key, Encipher);
            keys[0] == all[2 * i] && keys[1] == all[2 * i + 1] && keys[2..] == KeysFrom(key, i + 1)
  {
    hide Schedule;
  }

  lemma {:induction false} HalvesStay(l: bv64, r: bv64, key: seq<Octet>, i: nat)
    requires |key| == BLOCK_BYTES && i <= ROUNDS && Half(l) && Half(r)
    ensures Half(StandardRounds(l, r, key, i).0) && Half(StandardRounds(l, r, key, i).1)
    decreases ROUNDS - i
  {
    hide CipherFunction, RoundKey, TurnLeft, Half, Added;
    if i < ROUNDS {
      var f := CipherFunction(r, RoundKey(key, i + 1));
      FunctionHalf(r, RoundKey(key, i + 1));
      TurnedAdded(l, f);
      HalvesStay(r, Added(l, f), key, i + 1);
    }
  }

  lemma {:induction false} RoundsAreStandard(l: bv64, r: bv64, key: seq<Octet>, i: nat, keys: seq<Word>)
    requires |key| == BLOCK_BYTES && i <= ROUNDS && Half(l) && Half(r) && keys == KeysFrom(key, i)
    ensures Rounds(CODEC_TABLES, Word(TurnLeft(l)), Word(TurnLeft(r)), keys) == Turned(StandardRounds(l, r, key, i))
    decreases ROUNDS - i
  {
    hide Mix, CipherFunction, RoundKey, TurnLeft, Xor, Half, Schedule, Added, KeysFrom;
    if i < ROUNDS {
      var f := CipherFunction(r, RoundKey(key, i + 1));
      RoundMix(key, i, r);
      FunctionHalf(r, RoundKey(key, i + 1));
      TurnedAdded(l, f);
      RoundPair(key, i);
      RoundsAreStandard(r, Added(l, f), key, i + 1, KeysFrom(key, i + 1));
    }
  }

  // ---- a block ----

  /** A block after the initial permutation. */
  function Initial(b0: Word, b1: Word): (bv64, bv64) {
    (InitialL(b0.bits, b1.bits), InitialR(b0.bits, b1.bits))
  }

  lemma InitialHalves(b0: bv64, b1: bv64)
    ensures Half(InitialL(b0, b1)) && Half(InitialR(b0, b1))
  {
  }

  lemma OpeningIsInitial(b0: Word, b1: Word)
    requires Clean(b0) && Clean(b1)
    ensures Opening(b0, b1) == Turned(Initial(b0, b1))
    ensures Half(Initial(b0, b1).0) && Half(Initial(b0, b1).1)
  {
    hide OpenBits, InitialL, InitialR, TurnLeft, Half;
    OpeningL(b0.bits, b1.bits);
    OpeningR(b0.bits, b1.bits);
    InitialHalves(b0.bits, b1.bits);
  }

  lemma TurnedInjective(a: bv64, b: bv64)
    requires Half(a) && Half(b) && TurnLeft(a) == TurnLeft(b)
    ensures a == b
  {
  }

  lemma TurnedClean(a: bv64)
    requires Half(a)
    ensures Clean(Word(TurnLeft(a)))
  {
  }

  lemma LowClean(w: Word)
    ensures Clean(Low(w))
  {
  }

  /** The initial permutation loses nothing, so it says everything about a block. */
  lemma InitialInjective(a0: Word, a1: Word, b0: Word, b1: Word)
    requires Clean(a0) && Clean(a1) && Clean(b0) && Clean(b1) && Initial(a0, a1) == Initial(b0, b1)
    ensures a0 == b0 && a1 == b1
  {
    hide Opening, Closing, Clean, Low, Initial, Turned;
    OpeningIsInitial(a0, a1);
    OpeningIsInitial(b0, b1);
    CloseAfterOpen(a0, a1);
    CloseAfterOpen(b0, b1);
  }

  /**
   * For every key and block, enciphering is the standard's: the result is the one block whose initial permutation is
   * the two halves after sixteen rounds, exchanged.
   */
  lemma CipherIsStandard(key: seq<Octet>, b0: Word, b1: Word)
    requires |key| == BLOCK_BYTES && Clean(b0) && Clean(b1)
    ensures var (c, d) := Cipher(CODEC_TABLES, b0, b1, Schedule(key, Encipher));
            var h := Initial(b0, b1);
            var out := StandardRounds(h.0, h.1, key, 0);
            Initial(Low(c), Low(d)) == (out.1, out.0)
  {
    hide Opening, Closing, Clean, Low, Initial, Rounds, StandardRounds, TurnLeft, Half, Schedule;
    var h, keys := Initial(b0, b1), Schedule(key, Encipher);
    OpeningIsInitial(b0, b1);
    assert KeysFrom(key, 0) == keys;
    RoundsAreStandard(h.0, h.1, key, 0, keys);
    HalvesStay(h.0, h.1, key, 0);
    var out := StandardRounds(h.0, h.1, key, 0);
    var (x, y) := Rounds(CODEC_TABLES, Word(TurnLeft(h.0)), Word(TurnLeft(h.1)), keys);
    var (c, d) := Closing(x, y);
    TurnedClean(out.0);
    TurnedClean(out.1);
    OpenAfterClose(x, y);
    LowClean(c);
    LowClean(d);
    OpeningIsInitial(Low(c), Low(d));
    TurnedInjective(Initial(Low(c), Low(d)).0, out.1);
    TurnedInjective(Initial(Low(c), Low(d)).1, out.0);
  }

  /** Eight bytes as two words, the most significant byte first. */
  function Words(s: seq<Octet>): (Word, Word)
    requires |s| == BLOCK_BYTES
  {
    (Scrunch(s[0], s[1], s[2], s[3]), Scrunch(s[4], s[5], s[6], s[7]))
  }

  /** The same of the eight bytes of a block in a buffer. */
  lemma BlockIsStandard(key: seq<Octet>, s: seq<Octet>)
    requires |key| == BLOCK_BYTES && |s| == BLOCK_BYTES
    ensures var c := Words(Block(CODEC_TABLES, s, Schedule(key, Encipher)));
            var h := Initial(Words(s).0, Words(s).1);
            var out := StandardRounds(h.0, h.1, key, 0);
            Initial(c.0, c.1) == (out.1, out.0)
  {
    hide Cipher, Schedule, Initial, StandardRounds, Clean, Scrunch, Unscrun, Low;
    var w := Words(s);
    CipherIsStandard(key, w.0, w.1);
    var (c, d) := Cipher(CODEC_TABLES, w.0, w.1, Schedule(key, Encipher));
    ScrunchUnscrun(c);
    ScrunchUnscrun(d);
  }
}
