/** Coding and decoding in the same order, over all keys and buffers: the cipher's symmetry under complement decides. */
module CodingOrder {
  import opened Des
  import opened DesKeys
  import opened DesTables
  import opened AuthCodecs

  // ---- complement ----

  /** All 32 bits of a block half inverted. */
  function Not(w: Word): Word {
    Word(Inverted(w.bits))
  }

  function Inverted(a: bv64): bv64 {
    !a & 0xffff_ffff
  }

  function NotOctet(b: Octet): Octet {
    Octet(!b.bits)
  }

  function NotBytes(s: seq<Octet>): (r: seq<Octet>)
    ensures |r| == |s|
  {
    seq(|s|, i requires 0 <= i < |s| => NotOctet(s[i]))
  }

  /** A key word in which all six-bit fields are ones. */
  const ONES_BITS: bv64 := 0x3f3f_3f3f
  const ONES := Word(ONES_BITS)

  function OnesWords(n: nat): (r: seq<Word>)
    ensures |r| == n
  {
    seq(n, _ => ONES)
  }

  predicate AgreeOnFields(a: bv64, b: bv64) {
    Field0(a) == Field0(b) && Field1(a) == Field1(b) && Field2(a) == Field2(b) && Field3(a) == Field3(b)
  }

  lemma Field0Agrees(r: bv64)
    requires r <= 0xffff_ffff
    ensures Field0(TurnedKeyed(Inverted(r), ONES_BITS)) == Field0(TurnedKeyed(r, 0))
    ensures Field0(Keyed(Inverted(r), ONES_BITS)) == Field0(Keyed(r, 0))
  {
  }

  lemma Field1Agrees(r: bv64)
    requires r <= 0xffff_ffff
    ensures Field1(TurnedKeyed(Inverted(r), ONES_BITS)) == Field1(TurnedKeyed(r, 0))
    ensures Field1(Keyed(Inverted(r), ONES_BITS)) == Field1(Keyed(r, 0))
  {
  }

  lemma Field2Agrees(r: bv64)
    requires r <= 0xffff_ffff
    ensures Field2(TurnedKeyed(Inverted(r), ONES_BITS)) == Field2(TurnedKeyed(r, 0))
    ensures Field2(Keyed(Inverted(r), ONES_BITS)) == Field2(Keyed(r, 0))
  {
  }

  lemma Field3Agrees(r: bv64)
    requires r <= 0xffff_ffff
    ensures Field3(TurnedKeyed(Inverted(r), ONES_BITS)) == Field3(TurnedKeyed(r, 0))
    ensures Field3(Keyed(Inverted(r), ONES_BITS)) == Field3(Keyed(r, 0))
  {
  }

  /** The substitutions see no difference between a half and its complement under complemented key words. */
  lemma FieldsAgree(r: bv64)
    requires CleanBits(r)
    ensures AgreeOnFields(TurnedKeyed(Inverted(r), ONES_BITS), TurnedKeyed(r, 0))
    ensures AgreeOnFields(Keyed(Inverted(r), ONES_BITS), Keyed(r, 0))
  {
    hide TurnedKeyed, Keyed, Inverted, Field0, Field1, Field2, Field3;
    Field0Agrees(r);
    Field1Agrees(r);
    Field2Agrees(r);
    Field3Agrees(r);
  }

  lemma SameFields(t: Tables, a0: bv64, a1: bv64, b0: bv64, b1: bv64)
    requires AgreeOnFields(a0, b0) && AgreeOnFields(a1, b1)
    ensures Substituted(t, a0, a1) == Substituted(t, b0, b1)
  {
    hide Pick, Field0, Field1, Field2, Field3;
  }

  lemma MixComplement(t: Tables, r: Word)
    requires Clean(r)
    ensures Mix(t, Not(r), ONES, ONES) == Mix(t, r, Word(0), Word(0))
  {
    hide Substituted, TurnedKeyed, Keyed, Inverted, AgreeOnFields;
    var a := r.bits;
    FieldsAgree(a);
    SameFields(t, TurnedKeyed(Inverted(a), ONES_BITS), Keyed(Inverted(a), ONES_BITS), TurnedKeyed(a, 0), Keyed(a, 0));
  }

  lemma NotXor(l: Word, f: Word)
    requires Clean(l) && Clean(f)
    ensures Xor(Not(l), f) == Not(Xor(l, f)) && Clean(Xor(l, f))
  {
  }

  lemma {:induction false} RoundsComplement(t: Tables, l: Word, r: Word, n: nat)
    requires Clean(l) && Clean(r) && n % 2 == 0
    ensures var (x, y) := Rounds(t, l, r, ZeroWords(n));
            Clean(x) && Clean(y) && Rounds(t, Not(l), Not(r), OnesWords(n)) == (Not(x), Not(y))
    decreases n
  {
    hide Mix, Xor, Not, Clean;
    if n > 0 {
      var f := Mix(t, r, Word(0), Word(0));
      MixClean(t, r, Word(0), Word(0));
      MixComplement(t, r);
      NotXor(l, f);
      assert ZeroWords(n)[2..] == ZeroWords(n - 2) && OnesWords(n)[2..] == OnesWords(n - 2);
      RoundsComplement(t, r, Xor(l, f), n - 2);
    }
  }

  /** The low 32 bits are inverted. */
  predicate Opposite(a: bv64, b: bv64) {
    (a ^ b) & 0xffff_ffff == 0xffff_ffff
  }

  predicate CleanBits(a: bv64) {
    a <= 0xffff_ffff
  }

  lemma Opposites4(a: bv64, b: bv64, a': bv64, b': bv64)
    requires Opposite(a, a') && Opposite(b, b')
    ensures Opposite(Exchange4(a, b).0, Exchange4(a', b').0)
    ensures Opposite(Exchange4(a, b).1, Exchange4(a', b').1)
  {
  }

  lemma Opposites16(a: bv64, b: bv64, a': bv64, b': bv64)
    requires Opposite(a, a') && Opposite(b, b')
    ensures Opposite(Exchange16(a, b).0, Exchange16(a', b').0)
    ensures Opposite(Exchange16(a, b).1, Exchange16(a', b').1)
  {
  }

  lemma Opposites2(a: bv64, b: bv64, a': bv64, b': bv64)
    requires Opposite(a, a') && Opposite(b, b')
    ensures Opposite(Exchange2(a, b).0, Exchange2(a', b').0)
    ensures Opposite(Exchange2(a, b).1, Exchange2(a', b').1)
  {
  }

  lemma Opposites8(a: bv64, b: bv64, a': bv64, b': bv64)
    requires Opposite(a, a') && Opposite(b, b')
    ensures Opposite(Exchange8(a, b).0, Exchange8(a', b').0)
    ensures Opposite(Exchange8(a, b).1, Exchange8(a', b').1)
  {
  }

  lemma OppositesOdd(a: bv64, b: bv64, a': bv64, b': bv64)
    requires Opposite(a, a') && Opposite(b, b')
    ensures Opposite(ExchangeOdd(a, b).0, ExchangeOdd(a', b').0)
    ensures Opposite(ExchangeOdd(a, b).1, ExchangeOdd(a', b').1)
  {
  }

  lemma OddClean(a: bv64, b: bv64)
    requires CleanBits(a)
    ensures CleanBits(ExchangeOdd(a, b).0)
  {
  }

  lemma OppositesTurn(a: bv64, a': bv64)
    requires Opposite(a, a') && CleanBits(a) && CleanBits(a')
    ensures Opposite(TurnRight(a), TurnRight(a'))
  {
  }

  lemma CloseOpposite(x: bv64, y: bv64, x': bv64, y': bv64)
    requires Opposite(x, x') && Opposite(y, y') && CleanBits(x) && CleanBits(y) && CleanBits(x') && CleanBits(y')
    ensures Opposite(CloseBits(x, y).0, CloseBits(x', y').0) && Opposite(CloseBits(x, y).1, CloseBits(x', y').1)
  {
    hide Opposite, CleanBits, Exchange4, Exchange16, Exchange2, Exchange8, ExchangeOdd, TurnRight;
    OppositesTurn(y, y');
    OppositesOdd(x, TurnRight(y), x', TurnRight(y'));
    OddClean(x, TurnRight(y));
    OddClean(x', TurnRight(y'));
    var (l1, r1) := ExchangeOdd(x, TurnRight(y));
    var (m1, s1) := ExchangeOdd(x', TurnRight(y'));
    OppositesTurn(l1, m1);
    Opposites8(TurnRight(l1), r1, TurnRight(m1), s1);
    var (l2, r2) := Exchange8(TurnRight(l1), r1);
    var (m2, s2) := Exchange8(TurnRight(m1), s1);
    Opposites2(l2, r2, m2, s2);
    var (l3, r3) := Exchange2(l2, r2);
    var (m3, s3) := Exchange2(m2, s2);
    Opposites16(r3, l3, s3, m3);
    var (r4, l4) := Exchange16(r3, l3);
    var (s4, m4) := Exchange16(s3, m3);
    Opposites4(r4, l4, s4, m4);
  }

  lemma NotIsOpposite(w: Word)
    ensures Opposite(w.bits, Not(w).bits)
  {
  }

  lemma NotClean(w: Word)
    ensures Clean(Not(w))
  {
  }

  lemma OppositeLow(c: Word, d: Word)
    requires (c.bits ^ d.bits) & 0xffff_ffff == 0xffff_ffff
    ensures Low(d).bits == Not(c).bits
  {
  }

  lemma SameBits(a: Word, b: Word)
    requires a.bits == b.bits
    ensures a == b
  {
  }

  lemma OppositeIsNot(c: Word, d: Word)
    requires Opposite(c.bits, d.bits)
    ensures Low(d) == Not(c)
  {
    hide Low, Not;
    OppositeLow(c, d);
    SameBits(Low(d), Not(c));
  }

  lemma ClosingComplement(x: Word, y: Word)
    requires Clean(x) && Clean(y)
    ensures var (c, d) := Closing(x, y);
            var (c', d') := Closing(Not(x), Not(y));
            Low(c') == Not(c) && Low(d') == Not(d)
  {
    hide Opposite, CloseBits, Not, Low, CleanBits;
    NotIsOpposite(x);
    NotIsOpposite(y);
    AllClean(x, y);
    CloseOpposite(x.bits, y.bits, Not(x).bits, Not(y).bits);
    var (c, d) := Closing(x, y);
    var (c', d') := Closing(Not(x), Not(y));
    OppositeIsNot(c, c');
    OppositeIsNot(d, d');
  }

  lemma AllClean(x: Word, y: Word)
    requires Clean(x) && Clean(y)
    ensures CleanBits(x.bits) && CleanBits(y.bits) && CleanBits(Not(x).bits) && CleanBits(Not(y).bits)
  {
  }

  lemma LowOfNot(a: Word, c: Word)
    requires Low(c) == a
    ensures Not(c) == Not(a)
  {
  }

  /** Opening undoes closing, so it keeps complements as well. */
  lemma OpeningComplement(a: Word, b: Word)
    requires Clean(a) && Clean(b)
    ensures var (l, r) := Opening(a, b);
            Clean(l) && Clean(r) && Opening(Not(a), Not(b)) == (Not(l), Not(r))
  {
    hide Opening, Closing, Not, Low, Clean;
    var (l, r) := Opening(a, b);
    CloseAfterOpen(a, b);
    var (c, d) := Closing(r, l);
    ClosingComplement(r, l);
    NotClean(l);
    NotClean(r);
    OpenAfterClose(Not(r), Not(l));
    LowOfNot(a, c);
    LowOfNot(b, d);
  }

  lemma ScrunchNot(a: Octet, b: Octet, c: Octet, d: Octet)
    ensures Scrunch(NotOctet(a), NotOctet(b), NotOctet(c), NotOctet(d)) == Not(Scrunch(a, b, c, d))
  {
  }

  lemma UnscrunNot(w: Word, w': Word)
    requires Low(w') == Not(w)
    ensures Unscrun(w') == NotBytes(Unscrun(w))
  {
    LowUnscrun(w');
    NotUnscrun(w);
    var u, v := Unscrun(Not(w)), Unscrun(w);
    assert forall i :: 0 <= i < 4 ==> u[i] == NotOctet(v[i]);
  }

  lemma NotUnscrun(w: Word)
    ensures var u, v := Unscrun(Not(w)), Unscrun(w);
            u[0] == NotOctet(v[0]) && u[1] == NotOctet(v[1]) && u[2] == NotOctet(v[2]) && u[3] == NotOctet(v[3])
  {
  }

  /** Enciphering the complement under the complement of the zero schedule gives the complement, whatever the tables. */
  lemma BlockComplement(t: Tables, s: seq<Octet>)
    requires |s| == BLOCK_BYTES
    ensures Block(t, NotBytes(s), OnesWords(KEY_WORDS)) == NotBytes(Block(t, s, ZeroWords(KEY_WORDS)))
  {
    hide Scrunch, Unscrun, Opening, Closing, Rounds, Not, NotOctet, Low, Clean, ZeroWords, OnesWords;
    var a, b := Scrunch(s[0], s[1], s[2], s[3]), Scrunch(s[4], s[5], s[6], s[7]);
    ScrunchNot(s[0], s[1], s[2], s[3]);
    ScrunchNot(s[4], s[5], s[6], s[7]);
    var (l, r) := Opening(a, b);
    OpeningComplement(a, b);
    var (x, y) := Rounds(t, l, r, ZeroWords(KEY_WORDS));
    RoundsComplement(t, l, r, KEY_WORDS);
    var (c, d) := Closing(x, y);
    var (c', d') := Closing(Not(x), Not(y));
    ClosingComplement(x, y);
    UnscrunNot(c, c');
    UnscrunNot(d, d');
    assert NotBytes(Unscrun(c)) + NotBytes(Unscrun(d)) == NotBytes(Unscrun(c) + Unscrun(d));
  }

  // ---- the schedule of ones ----

  function OnesOctets(n: nat): (r: seq<Octet>)
    ensures |r| == n
  {
    seq(n, _ => Octet(0xff))
  }

  /** The word after the first n bits were gathered, all of them ones. */
  const FILLED: seq<Word> := [
    Word(0x0), Word(0x800000), Word(0xc00000), Word(0xe00000), Word(0xf00000), Word(0xf80000), Word(0xfc0000),
    Word(0xfe0000), Word(0xff0000), Word(0xff8000), Word(0xffc000), Word(0xffe000), Word(0xfff000),
    Word(0xfff800), Word(0xfffc00), Word(0xfffe00), Word(0xffff00), Word(0xffff80), Word(0xffffc0),
    Word(0xffffe0), Word(0xfffff0), Word(0xfffff8), Word(0xfffffc), Word(0xfffffe), Word(0xffffff)]

  lemma FilledNext1(n: nat)
    requires n < 8
    ensures Or(FILLED[n], BIG_BYTE[n]) == FILLED[n + 1]
  {
    assert Or(FILLED[0], BIG_BYTE[0]) == FILLED[1];
    assert Or(FILLED[1], BIG_BYTE[1]) == FILLED[2];
    assert Or(FILLED[2], BIG_BYTE[2]) == FILLED[3];
    assert Or(FILLED[3], BIG_BYTE[3]) == FILLED[4];
    assert Or(FILLED[4], BIG_BYTE[4]) == FILLED[5];
    assert Or(FILLED[5], BIG_BYTE[5]) == FILLED[6];
    assert Or(FILLED[6], BIG_BYTE[6]) == FILLED[7];
    assert Or(FILLED[7], BIG_BYTE[7]) == FILLED[8];
  }

  lemma FilledNext2(n: nat)
    requires 8 <= n < 16
    ensures Or(FILLED[n], BIG_BYTE[n]) == FILLED[n + 1]
  {
    assert Or(FILLED[8], BIG_BYTE[8]) == FILLED[9];
    assert Or(FILLED[9], BIG_BYTE[9]) == FILLED[10];
    assert Or(FILLED[10], BIG_BYTE[10]) == FILLED[11];
    assert Or(FILLED[11], BIG_BYTE[11]) == FILLED[12];
    assert Or(FILLED[12], BIG_BYTE[12]) == FILLED[13];
    assert Or(FILLED[13], BIG_BYTE[13]) == FILLED[14];
    assert Or(FILLED[14], BIG_BYTE[14]) == FILLED[15];
    assert Or(FILLED[15], BIG_BYTE[15]) == FILLED[16];
  }

  lemma FilledNext3(n: nat)
    requires 16 <= n < 24
    ensures Or(FILLED[n], BIG_BYTE[n]) == FILLED[n + 1]
  {
    assert Or(FILLED[16], BIG_BYTE[16]) == FILLED[17];
    assert Or(FILLED[17], BIG_BYTE[17]) == FILLED[18];
    assert Or(FILLED[18], BIG_BYTE[18]) == FILLED[19];
    assert Or(FILLED[19], BIG_BYTE[19]) == FILLED[20];
    assert Or(FILLED[20], BIG_BYTE[20]) == FILLED[21];
    assert Or(FILLED[21], BIG_BYTE[21]) == FILLED[22];
    assert Or(FILLED[22], BIG_BYTE[22]) == FILLED[23];
    assert Or(FILLED[23], BIG_BYTE[23]) == FILLED[24];
  }

  lemma FilledNext(n: nat)
    requires n < 24
    ensures Or(FILLED[n], BIG_BYTE[n]) == FILLED[n + 1]
  {
    hide Or;
    if n < 8 { FilledNext1(n); } else if n < 16 { FilledNext2(n); } else { FilledNext3(n); }
  }

  lemma {:induction false} AllGathered(r: seq<bool>, half: nat, n: nat)
    requires |r| == KEY_BITS && half < 2 && n <= 24 && forall j :: 0 <= j < KEY_BITS ==> r[j]
    ensures Gathered(r, half, n) == FILLED[n]
  {
    hide Or;
    if n > 0 {
      AllGathered(r, half, n - 1);
      FilledNext(n - 1);
    }
  }

  lemma OnesSchedule()
    ensures Schedule(OnesOctets(BLOCK_BYTES), Encipher) == OnesWords(KEY_WORDS)
  {
    hide Chosen, Rotated, Gathered;
    var key := OnesOctets(BLOCK_BYTES);
    forall i: nat, half: nat | i < ROUNDS && half < 2
      ensures Raw(key, i, half) == FILLED[24]
    {
      OnesKeyBits(key, i);
      AllGathered(Rotated(Chosen(key), i), half, 24);
    }
    assert CookFirst(FILLED[24], FILLED[24]) == ONES && CookSecond(FILLED[24], FILLED[24]) == ONES;
  }

  lemma OnesKeyBits(key: seq<Octet>, i: nat)
    requires |key| == BLOCK_BYTES && (forall j :: 0 <= j < BLOCK_BYTES ==> key[j] == Octet(0xff)) && i < ROUNDS
    ensures forall j :: 0 <= j < KEY_BITS ==> Rotated(Chosen(key), i)[j]
  {
    hide ChosenBit;
    forall l: BitOfKey
      ensures ChosenBit(key, l)
    {
      OnesKeyBit(key, l);
    }
  }

  lemma OnesKeyBit(key: seq<Octet>, l: BitOfKey)
    requires |key| == BLOCK_BYTES && key[l / 8] == Octet(0xff)
    ensures ChosenBit(key, l)
  {
    SomeBit(l % 8);
  }

  lemma SomeBit(k: nat)
    requires k < 8
    ensures 0xff & BYTE_BIT[k] != 0
  {
  }

  // ---- a second block under the zero key: every other byte ff ----

  lemma Mix1()
    ensures Mix(CODEC_TABLES, Word(0x5555_5555), Word(0), Word(0)) == Word(0x6faf_c150)
  {
  }

  lemma Mix2()
    ensures Mix(CODEC_TABLES, Word(0x3afa_9405), Word(0), Word(0)) == Word(0xd8e3_d448)
  {
  }

  lemma Mix3()
    ensures Mix(CODEC_TABLES, Word(0x8db6_811d), Word(0), Word(0)) == Word(0x3af1_3b8e)
  {
  }

  lemma Mix4()
    ensures Mix(CODEC_TABLES, Word(0x000b_af8b), Word(0), Word(0)) == Word(0xe1d5_b7ad)
  {
  }

  lemma Mix5()
    ensures Mix(CODEC_TABLES, Word(0x6c63_36b0), Word(0), Word(0)) == Word(0x62fa_a3ad)
  {
  }

  lemma Mix6()
    ensures Mix(CODEC_TABLES, Word(0x62f1_0c26), Word(0), Word(0)) == Word(0x8f52_18bb)
  {
  }

  lemma Mix7()
    ensures Mix(CODEC_TABLES, Word(0xe331_2e0b), Word(0), Word(0)) == Word(0x4c5e_5289)
  {
  }

  lemma Mix8()
    ensures Mix(CODEC_TABLES, Word(0x2eaf_5eaf), Word(0), Word(0)) == Word(0x3d43_dac8)
  {
  }

  lemma Mix9()
    ensures Mix(CODEC_TABLES, Word(0xde72_f4c3), Word(0), Word(0)) == Word(0xd21d_1453)
  {
  }

  lemma Mix10()
    ensures Mix(CODEC_TABLES, Word(0xfcb2_4afc), Word(0), Word(0)) == Word(0xc462_1845)
  {
  }

  lemma Mix11()
    ensures Mix(CODEC_TABLES, Word(0x1a10_ec86), Word(0), Word(0)) == Word(0x2d29_0d57)
  {
  }

  lemma Mix12()
    ensures Mix(CODEC_TABLES, Word(0xd19b_47ab), Word(0), Word(0)) == Word(0x16ff_06a0)
  {
  }

  lemma Mix13()
    ensures Mix(CODEC_TABLES, Word(0x0cef_ea26), Word(0), Word(0)) == Word(0xaa2b_9180)
  {
  }

  lemma Mix14()
    ensures Mix(CODEC_TABLES, Word(0x7bb0_d62b), Word(0), Word(0)) == Word(0x5baf_a4b1)
  {
  }

  lemma Mix15()
    ensures Mix(CODEC_TABLES, Word(0x5740_4e97), Word(0), Word(0)) == Word(0xb49c_340d)
  {
  }

  lemma Mix16()
    ensures Mix(CODEC_TABLES, Word(0xcf2c_e226), Word(0), Word(0)) == Word(0xa8f8_3531)
  {
  }

  lemma RoundXors()
    ensures Xor(Word(0x5555_5555), Word(0x6faf_c150)) == Word(0x3afa_9405)
    ensures Xor(Word(0x5555_5555), Word(0xd8e3_d448)) == Word(0x8db6_811d)
    ensures Xor(Word(0x3afa_9405), Word(0x3af1_3b8e)) == Word(0x000b_af8b)
    ensures Xor(Word(0x8db6_811d), Word(0xe1d5_b7ad)) == Word(0x6c63_36b0)
    ensures Xor(Word(0x000b_af8b), Word(0x62fa_a3ad)) == Word(0x62f1_0c26)
    ensures Xor(Word(0x6c63_36b0), Word(0x8f52_18bb)) == Word(0xe331_2e0b)
    ensures Xor(Word(0x62f1_0c26), Word(0x4c5e_5289)) == Word(0x2eaf_5eaf)
    ensures Xor(Word(0xe331_2e0b), Word(0x3d43_dac8)) == Word(0xde72_f4c3)
    ensures Xor(Word(0x2eaf_5eaf), Word(0xd21d_1453)) == Word(0xfcb2_4afc)
    ensures Xor(Word(0xde72_f4c3), Word(0xc462_1845)) == Word(0x1a10_ec86)
    ensures Xor(Word(0xfcb2_4afc), Word(0x2d29_0d57)) == Word(0xd19b_47ab)
    ensures Xor(Word(0x1a10_ec86), Word(0x16ff_06a0)) == Word(0x0cef_ea26)
    ensures Xor(Word(0xd19b_47ab), Word(0xaa2b_9180)) == Word(0x7bb0_d62b)
    ensures Xor(Word(0x0cef_ea26), Word(0x5baf_a4b1)) == Word(0x5740_4e97)
    ensures Xor(Word(0x7bb0_d62b), Word(0xb49c_340d)) == Word(0xcf2c_e226)
    ensures Xor(Word(0x5740_4e97), Word(0xa8f8_3531)) == Word(0xffb8_7ba6)
  {
  }

  lemma StripedRounds()
    ensures Rounds(CODEC_TABLES, Word(0x5555_5555), Word(0x5555_5555), ZeroWords(KEY_WORDS))
            == (Word(0xcf2c_e226), Word(0xffb8_7ba6))
  {
    hide Mix, Xor, Rounds;
    Mix1();
    Mix2();
    Mix3();
    Mix4();
    Mix5();
    Mix6();
    Mix7();
    Mix8();
    Mix9();
    Mix10();
    Mix11();
    Mix12();
    Mix13();
    Mix14();
    Mix15();
    Mix16();
    RoundXors();
    ZeroRound(Word(0x5555_5555), Word(0x5555_5555), Word(0x6faf_c150), 32);
    ZeroRound(Word(0x5555_5555), Word(0x3afa_9405), Word(0xd8e3_d448), 30);
    ZeroRound(Word(0x3afa_9405), Word(0x8db6_811d), Word(0x3af1_3b8e), 28);
    ZeroRound(Word(0x8db6_811d), Word(0x000b_af8b), Word(0xe1d5_b7ad), 26);
    ZeroRound(Word(0x000b_af8b), Word(0x6c63_36b0), Word(0x62fa_a3ad), 24);
    ZeroRound(Word(0x6c63_36b0), Word(0x62f1_0c26), Word(0x8f52_18bb), 22);
    ZeroRound(Word(0x62f1_0c26), Word(0xe331_2e0b), Word(0x4c5e_5289), 20);
    ZeroRound(Word(0xe331_2e0b), Word(0x2eaf_5eaf), Word(0x3d43_dac8), 18);
    ZeroRound(Word(0x2eaf_5eaf), Word(0xde72_f4c3), Word(0xd21d_1453), 16);
    ZeroRound(Word(0xde72_f4c3), Word(0xfcb2_4afc), Word(0xc462_1845), 14);
    ZeroRound(Word(0xfcb2_4afc), Word(0x1a10_ec86), Word(0x2d29_0d57), 12);
    ZeroRound(Word(0x1a10_ec86), Word(0xd19b_47ab), Word(0x16ff_06a0), 10);
    ZeroRound(Word(0xd19b_47ab), Word(0x0cef_ea26), Word(0xaa2b_9180), 8);
    ZeroRound(Word(0x0cef_ea26), Word(0x7bb0_d62b), Word(0x5baf_a4b1), 6);
    ZeroRound(Word(0x7bb0_d62b), Word(0x5740_4e97), Word(0xb49c_340d), 4);
    ZeroRound(Word(0x5740_4e97), Word(0xcf2c_e226), Word(0xa8f8_3531), 2);
    NoRounds(CODEC_TABLES, Word(0xcf2c_e226), Word(0xffb8_7ba6));
  }

  /** Bytes 00 and ff in turn. */
  const STRIPED: seq<Octet> := [
    Octet(0), Octet(0xff), Octet(0), Octet(0xff), Octet(0), Octet(0xff), Octet(0), Octet(0xff)]

  lemma StripedEnds()
    ensures Scrunch(Octet(0), Octet(0xff), Octet(0), Octet(0xff)) == Word(0x00ff_00ff)
    ensures Opening(Word(0x00ff_00ff), Word(0x00ff_00ff)) == (Word(0x5555_5555), Word(0x5555_5555))
    ensures var (c, d) := Closing(Word(0xcf2c_e226), Word(0xffb8_7ba6)); Unscrun(c)[0] == Octet(0xcf)
  {
  }

  lemma StripedBlock()
    ensures Block(CODEC_TABLES, STRIPED, ZeroWords(KEY_WORDS))[0] == Octet(0xcf)
  {
    hide Rounds, ZeroWords, Opening, Closing, Unscrun, Scrunch;
    StripedRounds();
    StripedEnds();
  }

  // ---- coding and decoding in the same order ----

  /** Enciphering and chaining a block give the same in either order. */
  predicate Commutes(t: Tables, s: seq<Octet>, keys: seq<Word>, kb: seq<Octet>)
    requires |s| == BLOCK_BYTES && |keys| % 2 == 0 && |kb| == 8
  {
    Chain(Block(t, s, keys), kb) == Block(t, Chain(s, kb), keys)
  }

  predicate Restored(t: Tables, s: seq<Octet>, desKey: seq<Octet>, xorKey: XorKey)
    requires |desKey| == BLOCK_BYTES
  {
    DecodeWhole(t, CodeWhole(t, s, desKey, xorKey), desKey, xorKey) == s
  }

  /** A buffer that is restored starts with a block on which the two steps commute. */
  lemma FirstBlockCommutes(t: Tables, s: seq<Octet>, desKey: seq<Octet>, xorKey: XorKey)
    requires |desKey| == BLOCK_BYTES && |s| >= BLOCK_BYTES && xorKey != NO_KEY && Restored(t, s, desKey, xorKey)
    ensures Commutes(t, s[..BLOCK_BYTES], Schedule(desKey, Encipher), KeyBytes(xorKey))
  {
    hide Schedule, Chain, Block, Fold, KeyBytes, CodeWhole, DecodeWhole;
    WholeRestored(t, s, desKey, xorKey);
    var p, kb, ek := WholeBlocks(s), KeyBytes(xorKey), Schedule(desKey, Encipher);
    var e, c := Blocks(t, p, ek), Chain(p, kb);
    assert p[..BLOCK_BYTES] == s[..BLOCK_BYTES];
    assert e[..BLOCK_BYTES] == Block(t, p[..BLOCK_BYTES], ek);
    assert Blocks(t, c, ek)[..BLOCK_BYTES] == Block(t, c[..BLOCK_BYTES], ek);
    ChainPrefix(e, kb, BLOCK_BYTES);
    ChainPrefix(p, kb, BLOCK_BYTES);
  }

  lemma InvertOne(a: Octet, k: Octet)
    ensures XorOctet(NotOctet(a), k).bits == NotOctet(XorOctet(a, k)).bits
  {
  }

  lemma InvertBoth(a: Octet, b: Octet, k: Octet)
    ensures XorOctet(NotOctet(a), XorOctet(NotOctet(b), k)).bits == XorOctet(a, XorOctet(b, k)).bits
  {
  }

  lemma SameOctets(a: Octet, b: Octet)
    requires a.bits == b.bits
    ensures a == b
  {
  }

  lemma NotXorOctet(a: Octet, b: Octet, k: Octet)
    ensures XorOctet(NotOctet(a), k) == NotOctet(XorOctet(a, k))
    ensures XorOctet(NotOctet(a), XorOctet(NotOctet(b), k)) == XorOctet(a, XorOctet(b, k))
  {
    hide XorOctet, NotOctet;
    InvertOne(a, k);
    InvertBoth(a, b, k);
    SameOctets(XorOctet(NotOctet(a), k), NotOctet(XorOctet(a, k)));
    SameOctets(XorOctet(NotOctet(a), XorOctet(NotOctet(b), k)), XorOctet(a, XorOctet(b, k)));
  }

  /** Chaining the complement inverts every other byte. */
  lemma {:induction false} ChainNot(s: seq<Octet>, kb: seq<Octet>, i: nat)
    requires |kb| == 8 && i < |s|
    ensures Chain(NotBytes(s), kb)[i] == if i % 2 == 0 then NotOctet(Chain(s, kb)[i]) else Chain(s, kb)[i]
  {
    hide Chain, XorOctet, NotOctet;
    ChainAt(s, kb, i);
    ChainAt(NotBytes(s), kb, i);
    if i == 0 {
      NotXorOctet(s[0], s[0], kb[0]);
    } else {
      ChainNot(s, kb, i - 1);
      var before := Chain(s, kb)[i - 1];
      NotXorOctet(s[i], before, kb[i % 8]);
      NotXorOctet(s[i], before, XorOctet(before, kb[i % 8]));
    }
  }

  lemma NotTwice(a: Octet, b: Octet)
    ensures NotOctet(a) == NotOctet(b) ==> a == b
    ensures NotOctet(Octet(0)) == Octet(0xff) && NotOctet(Octet(0xff)) == Octet(0)
  {
  }

  /** A block that chains to zeros has a complement that chains to the complement of the stripes. */
  lemma ChainsToStripes(z: seq<Octet>, kb: seq<Octet>)
    requires |kb| == 8 && |z| == BLOCK_BYTES && Chain(z, kb) == ZeroOctets(BLOCK_BYTES)
    ensures Chain(NotBytes(z), kb) == NotBytes(STRIPED)
  {
    hide Chain, NotOctet;
    var c := Chain(NotBytes(z), kb);
    NotTwice(Octet(0), Octet(0));
    forall i | 0 <= i < BLOCK_BYTES
      ensures c[i] == NotBytes(STRIPED)[i]
    {
      ChainNot(z, kb, i);
      StripedAt(i);
    }
  }

  lemma StripedAt(i: nat)
    requires i < BLOCK_BYTES
    ensures STRIPED[i] == Octet(if i % 2 == 0 then 0 else 0xff)
  {
  }

  /**
   * Of a block that chains to zeros and its complement, at least one fails: with the zero DES key the one commutes only
   * if its cipher chains to the cipher of zeros, and then with the key of ones the other does not.
   */
  lemma NotBoth(z: seq<Octet>, kb: seq<Octet>)
    requires |kb| == 8 && |z| == BLOCK_BYTES && Chain(z, kb) == ZeroOctets(BLOCK_BYTES)
    ensures !(Commutes(CODEC_TABLES, z, ZeroWords(KEY_WORDS), kb)
              && Commutes(CODEC_TABLES, NotBytes(z), OnesWords(KEY_WORDS), kb))
  {
    hide Block, Chain, ZeroWords, OnesWords, NotOctet, ZeroOctets;
    var zs, os := ZeroWords(KEY_WORDS), OnesWords(KEY_WORDS);
    if Commutes(CODEC_TABLES, z, zs, kb) && Commutes(CODEC_TABLES, NotBytes(z), os, kb) {
      var e := Block(CODEC_TABLES, z, zs);
      FirstOfZeros();
      BlockComplement(CODEC_TABLES, z);
      ChainNot(e, kb, 0);
      assert Chain(NotBytes(e), kb)[0] == NotOctet(Octet(0x8c));
      ChainsToStripes(z, kb);
      BlockComplement(CODEC_TABLES, STRIPED);
      StripedBlock();
      assert Block(CODEC_TABLES, NotBytes(STRIPED), os)[0] == NotOctet(Octet(0xcf));
      NotTwice(Octet(0x8c), Octet(0xcf));
    }
  }

  lemma FirstOfZeros()
    ensures Block(CODEC_TABLES, ZeroOctets(BLOCK_BYTES), ZeroWords(KEY_WORDS))[0] == Octet(0x8c)
  {
    hide Block, ZeroWords, ZeroOctets;
    ZeroBlock();
    OneBlock(CODEC_TABLES, ZeroOctets(BLOCK_BYTES), ZeroWords(KEY_WORDS));
    assert ZERO_CIPHER[0] == Octet(0x8c);
  }

  lemma OneBlock(t: Tables, s: seq<Octet>, keys: seq<Word>)
    requires |s| == BLOCK_BYTES && |keys| % 2 == 0
    ensures Blocks(t, s, keys) == Block(t, s, keys)
  {
    hide Block;
    assert s[..BLOCK_BYTES] == s && Blocks(t, s[BLOCK_BYTES..], keys) == [];
  }

  /** The buffer that starts with a block and goes on with zeros. */
  function Extended(front: seq<Octet>, n: nat): (s: seq<Octet>)
    requires |front| == BLOCK_BYTES <= n
    ensures |s| == n && s[..BLOCK_BYTES] == front
  {
    front + ZeroOctets(n - BLOCK_BYTES)
  }

  /** For every XOR key that is set and every length of at least a block, one of two DES keys fails on some buffer. */
  lemma SomeBufferFails(xorKey: XorKey, n: nat) returns (desKey: seq<Octet>, s: seq<Octet>)
    requires xorKey != NO_KEY && n >= BLOCK_BYTES
    ensures |desKey| == BLOCK_BYTES && |s| == n && !Restored(CODEC_TABLES, s, desKey, xorKey)
  {
    hide Schedule, Chain, Unchain, Restored, KeyBytes, Commutes, NotBytes, ZeroWords, OnesWords, ZeroOctets, OnesOctets;
    var kb := KeyBytes(xorKey);
    var z := Unchain(ZeroOctets(BLOCK_BYTES), kb);
    ChainUnchain(ZeroOctets(BLOCK_BYTES), kb);
    NotBoth(z, kb);
    ZeroSchedule();
    OnesSchedule();
    desKey, s := ZeroOctets(BLOCK_BYTES), Extended(z, n);
    if Restored(CODEC_TABLES, s, desKey, xorKey) {
      FirstBlockCommutes(CODEC_TABLES, s, desKey, xorKey);
      desKey, s := OnesOctets(BLOCK_BYTES), Extended(NotBytes(z), n);
      if Restored(CODEC_TABLES, s, desKey, xorKey) { FirstBlockCommutes(CODEC_TABLES, s, desKey, xorKey); }
    }
  }

  /**
   * With the codec's tables, and for every XOR key and length: decoding in the order of coding restores every buffer of
   * this length under every DES key exactly if no XOR key is set or the buffers are shorter than a block.
   */
  lemma RestoredAlways(xorKey: XorKey, n: nat)
    ensures (forall desKey: seq<Octet>, s: seq<Octet> :: |desKey| == BLOCK_BYTES && |s| == n ==>
               Restored(CODEC_TABLES, s, desKey, xorKey))
            <==> xorKey == NO_KEY || n < BLOCK_BYTES
  {
    hide Restored;
    if xorKey == NO_KEY || n < BLOCK_BYTES {
      forall desKey: seq<Octet>, s: seq<Octet> | |desKey| == BLOCK_BYTES && |s| == n
        ensures Restored(CODEC_TABLES, s, desKey, xorKey)
      {
        ShortRestored(s, desKey, xorKey);
      }
    } else {
      var desKey, s := SomeBufferFails(xorKey, n);
    }
  }

  lemma ShortRestored(s: seq<Octet>, desKey: seq<Octet>, xorKey: XorKey)
    requires |desKey| == BLOCK_BYTES && (xorKey == NO_KEY || |s| < BLOCK_BYTES)
    ensures Restored(CODEC_TABLES, s, desKey, xorKey)
  {
    hide CodeWhole, DecodeWhole, Schedule;
    WholeRestored(CODEC_TABLES, s, desKey, xorKey);
  }
}
