/** The key schedule as FIPS 46-3 defines it, and that the codec's tables and words hold it. */
module DesStandard {
  import opened Des
  import opened DesKeys

  // ---- the schedule of the standard, which counts bits and rounds from one ----

  type KeyNumber = x: nat | 1 <= x <= 64 witness 1
  type HalvesNumber = x: nat | 1 <= x <= 56 witness 1

  const PERMUTED_CHOICE_1: seq<KeyNumber> :=
    [57, 49, 41, 33, 25, 17, 9, 1, 58, 50, 42, 34, 26, 18]
    + [10, 2, 59, 51, 43, 35, 27, 19, 11, 3, 60, 52, 44, 36]
    + [63, 55, 47, 39, 31, 23, 15, 7, 62, 54, 46, 38, 30, 22]
    + [14, 6, 61, 53, 45, 37, 29, 21, 13, 5, 28, 20, 12, 4]

  const LEFT_SHIFTS: seq<nat> := [1, 1, 2, 2, 2, 2, 2, 2, 1, 2, 2, 2, 2, 2, 2, 1]

  const PERMUTED_CHOICE_2: seq<HalvesNumber> :=
    [14, 17, 11, 24, 1, 5, 3, 28, 15, 6, 21, 10]
    + [23, 19, 12, 4, 26, 8, 16, 7, 27, 20, 13, 2]
    + [41, 52, 31, 37, 47, 55, 30, 40, 51, 45, 33, 48]
    + [44, 49, 39, 56, 34, 53, 46, 42, 50, 36, 29, 32]

  /** Bit l of a key, from the most significant bit of its first byte. */
  function KeyBit(key: seq<Octet>, l: KeyNumber): bool
    requires |key| == BLOCK_BYTES
  {
    var b := key[(l - 1) / 8].bits;
    match (l - 1) % 8
    case 0 => b >= 0x80
    case 1 => b % 0x80 >= 0x40
    case 2 => b % 0x40 >= 0x20
    case 3 => b % 0x20 >= 0x10
    case 4 => b % 0x10 >= 0x08
    case 5 => b % 0x08 >= 0x04
    case 6 => b % 0x04 >= 0x02
    case _ => b % 0x02 >= 0x01
  }

  function ShiftLeft(half: seq<bool>, n: nat): (r: seq<bool>)
    requires n <= |half|
    ensures |r| == |half|
  {
    half[n..] + half[..n]
  }

  /** Both halves before round i, each shifted left as often as the rounds up to it say. */
  function HalvesAfter(key: seq<Octet>, i: nat): (r: (seq<bool>, seq<bool>))
    requires |key| == BLOCK_BYTES && i <= ROUNDS
    ensures |r.0| == 28 && |r.1| == 28
  {
    if i == 0 then
      (seq(28, j requires 0 <= j < 28 => KeyBit(key, PERMUTED_CHOICE_1[j])),
       seq(28, j requires 0 <= j < 28 => KeyBit(key, PERMUTED_CHOICE_1[28 + j])))
    else
      var (c, d) := HalvesAfter(key, i - 1);
      (ShiftLeft(c, LEFT_SHIFTS[i - 1]), ShiftLeft(d, LEFT_SHIFTS[i - 1]))
  }

  /** The 48 key bits of round i. */
  function Subkey(key: seq<Octet>, i: nat): (r: seq<bool>)
    requires |key| == BLOCK_BYTES && 1 <= i <= ROUNDS
    ensures |r| == 48
  {
    var (c, d) := HalvesAfter(key, i);
    seq(48, j requires 0 <= j < 48 => (c + d)[PERMUTED_CHOICE_2[j] - 1])
  }

  // ---- the codec's tables ----

  lemma MaskIsBit(b: bv8, k: nat)
    requires k < 8
    ensures b & BYTE_BIT[k] != 0 <==>
            match k
            case 0 => b >= 0x80
            case 1 => b % 0x80 >= 0x40
            case 2 => b % 0x40 >= 0x20
            case 3 => b % 0x20 >= 0x10
            case 4 => b % 0x10 >= 0x08
            case 5 => b % 0x08 >= 0x04
            case 6 => b % 0x04 >= 0x02
            case _ => b % 0x02 >= 0x01
  {
  }

  predicate FromZero(a: seq<nat>, b: seq<nat>) {
    |a| == |b| && forall j :: 0 <= j < |a| ==> a[j] + 1 == b[j]
  }

  lemma FromZeroJoined(a: seq<nat>, b: seq<nat>, a': seq<nat>, b': seq<nat>)
    requires FromZero(a, b) && FromZero(a', b')
    ensures FromZero(a + a', b + b')
  {
  }

  /** The tables of the codec count from zero. */
  lemma Choice1FromZero()
    ensures FromZero(PC1, PERMUTED_CHOICE_1)
  {
    hide FromZero;
    Choice1First();
    Choice1Second();
    FromZeroJoined(PC1[..28], PERMUTED_CHOICE_1[..28], PC1[28..], PERMUTED_CHOICE_1[28..]);
    assert PC1 == PC1[..28] + PC1[28..] && PERMUTED_CHOICE_1 == PERMUTED_CHOICE_1[..28] + PERMUTED_CHOICE_1[28..];
  }

  lemma Choice1First()
    ensures FromZero(PC1[..28], PERMUTED_CHOICE_1[..28])
  {
  }

  lemma Choice1Second()
    ensures FromZero(PC1[28..], PERMUTED_CHOICE_1[28..])
  {
  }

  lemma Choice2FromZero()
    ensures FromZero(PC2, PERMUTED_CHOICE_2)
  {
    hide FromZero;
    Choice2First();
    Choice2Second();
    FromZeroJoined(PC2[..24], PERMUTED_CHOICE_2[..24], PC2[24..], PERMUTED_CHOICE_2[24..]);
    assert PC2 == PC2[..24] + PC2[24..] && PERMUTED_CHOICE_2 == PERMUTED_CHOICE_2[..24] + PERMUTED_CHOICE_2[24..];
  }

  lemma Choice2First()
    ensures FromZero(PC2[..24], PERMUTED_CHOICE_2[..24])
  {
  }

  lemma Choice2Second()
    ensures FromZero(PC2[24..], PERMUTED_CHOICE_2[24..])
  {
  }

  lemma ChosenAt(key: seq<Octet>, j: nat)
    requires |key| == BLOCK_BYTES && j < KEY_BITS
    ensures Chosen(key)[j] == KeyBit(key, PERMUTED_CHOICE_1[j])
  {
    Choice1FromZero();
    MaskIsBit(key[PC1[j] / 8].bits, PC1[j] % 8);
  }

  lemma HalvesAtFirst(key: seq<Octet>)
    requires |key| == BLOCK_BYTES
    ensures forall j :: 0 <= j < 28 ==> HalvesAfter(key, 0).0[j] == KeyBit(key, PERMUTED_CHOICE_1[j])
    ensures forall j :: 0 <= j < 28 ==> HalvesAfter(key, 0).1[j] == KeyBit(key, PERMUTED_CHOICE_1[28 + j])
  {
    hide KeyBit;
  }

  lemma ChosenHalves(key: seq<Octet>)
    requires |key| == BLOCK_BYTES
    ensures Chosen(key) == HalvesAfter(key, 0).0 + HalvesAfter(key, 0).1
  {
    hide KeyBit, Chosen, HalvesAfter;
    HalvesAtFirst(key);
    var c, d := HalvesAfter(key, 0).0, HalvesAfter(key, 0).1;
    forall j | 0 <= j < KEY_BITS
      ensures Chosen(key)[j] == (c + d)[j]
    {
      ChosenAt(key, j);
    }
  }

  /** How far the halves are turned before round i. */
  function Turn(i: nat): nat
    requires i <= ROUNDS
  {
    if i == 0 then 0 else TOT_ROT[i - 1]
  }

  lemma TurnMore(i: nat)
    requires 0 < i <= ROUNDS
    ensures Turn(i) == Turn(i - 1) + LEFT_SHIFTS[i - 1] <= 28
  {
  }

  lemma ShiftTwice(s: seq<bool>, m: nat, n: nat)
    requires m + n <= |s|
    ensures ShiftLeft(ShiftLeft(s, m), n) == ShiftLeft(s, m + n)
  {
  }

  lemma {:induction false} HalvesTurned(key: seq<Octet>, i: nat)
    requires |key| == BLOCK_BYTES && i <= ROUNDS
    ensures Turn(i) <= 28
    ensures HalvesAfter(key, i).0 == ShiftLeft(HalvesAfter(key, 0).0, Turn(i))
    ensures HalvesAfter(key, i).1 == ShiftLeft(HalvesAfter(key, 0).1, Turn(i))
  {
    hide KeyBit, ShiftLeft;
    if i > 0 {
      HalvesTurned(key, i - 1);
      TurnMore(i);
      ShiftTwice(HalvesAfter(key, 0).0, Turn(i - 1), LEFT_SHIFTS[i - 1]);
      ShiftTwice(HalvesAfter(key, 0).1, Turn(i - 1), LEFT_SHIFTS[i - 1]);
    } else {
      ShiftNothing(HalvesAfter(key, 0).0);
      ShiftNothing(HalvesAfter(key, 0).1);
    }
  }

  lemma ShiftNothing(s: seq<bool>)
    ensures ShiftLeft(s, 0) == s
  {
  }

  lemma RotatedHalves(c: seq<bool>, d: seq<bool>, i: nat)
    requires |c| == 28 && |d| == 28 && i < ROUNDS
    ensures Turn(i + 1) <= 28 && Rotated(c + d, i) == ShiftLeft(c, Turn(i + 1)) + ShiftLeft(d, Turn(i + 1))
  {
    TurnMore(i + 1);
  }

  /** Choosing, turning and gathering pick the bits of the standard's round key, for every key, round and bit. */
  lemma SubkeyBit(key: seq<Octet>, i: nat, j: nat)
    requires |key| == BLOCK_BYTES && i < ROUNDS && j < 48
    ensures Rotated(Chosen(key), i)[PC2[j]] == Subkey(key, i + 1)[j]
  {
    hide HalvesAfter, Chosen, Rotated, ShiftLeft;
    ChosenHalves(key);
    HalvesTurned(key, i + 1);
    RotatedHalves(HalvesAfter(key, 0).0, HalvesAfter(key, 0).1, i);
    Choice2FromZero();
  }

  // ---- the words of a round ----

  const SIX_BIT: seq<bv6> := [0x20, 0x10, 0x08, 0x04, 0x02, 0x01]

  /** The six key bits that substitution box s, from zero, is given by the words of a round. */
  function BoxKey(pair: seq<Word>, s: nat): bv6
    requires |pair| == 2 && s < 8
  {
    var w := pair[s % 2].bits;
    match s / 2
    case 0 => Field3(w)
    case 1 => Field2(w)
    case 2 => Field1(w)
    case _ => Field0(w)
  }

  /** The word with one bit set, and the word with all bits below it set. */
  function Pow(n: nat): bv64 {
    if n == 0 then 1 else Doubled(Pow(n - 1))
  }

  function Below(n: nat): bv64 {
    if n == 0 then 0 else DoubledAndOne(Below(n - 1))
  }

  function Doubled(p: bv64): bv64 {
    p << 1
  }

  function DoubledAndOne(l: bv64): bv64 {
    (l << 1) | 1
  }

  predicate Has(g: bv64, x: bv64) {
    g & x == x
  }

  predicate Lacks(g: bv64, x: bv64) {
    g & x == 0
  }

  function Joined(g: bv64, x: bv64): bv64 {
    g | x
  }

  lemma DoubledLacks(l: bv64, p: bv64)
    requires Lacks(l, p)
    ensures Lacks(DoubledAndOne(l), Doubled(p))
  {
  }

  lemma DoubledHas(l: bv64, p: bv64)
    requires Has(l, p)
    ensures Has(DoubledAndOne(l), Doubled(p))
  {
  }

  lemma OneHeld(l: bv64)
    ensures Has(DoubledAndOne(l), 1) && Lacks(0, l)
  {
  }

  lemma {:induction false} NotBelow(n: nat)
    ensures Lacks(Below(n), Pow(n))
  {
    hide Has, Lacks, Doubled, DoubledAndOne;
    if n > 0 {
      NotBelow(n - 1);
      DoubledLacks(Below(n - 1), Pow(n - 1));
    } else {
      OneHeld(1);
    }
  }

  lemma {:induction false} IsBelow(m: nat, n: nat)
    requires m < n
    ensures Has(Below(n), Pow(m))
  {
    hide Has, Lacks, Doubled, DoubledAndOne;
    if m > 0 {
      IsBelow(m - 1, n - 1);
      DoubledHas(Below(n - 1), Pow(m - 1));
    } else {
      OneHeld(Below(n - 1));
    }
  }

  lemma WithinApart(p: bv64, q: bv64, l: bv64)
    requires Has(l, p) && Lacks(l, q)
    ensures Lacks(p, q) && Lacks(q, p)
  {
  }

  lemma BitsApart(m: nat, n: nat)
    requires m != n
    ensures Lacks(Pow(m), Pow(n))
  {
    hide Pow, Below, Has, Lacks;
    var low, high := if m < n then m else n, if m < n then n else m;
    IsBelow(low, high);
    NotBelow(high);
    WithinApart(Pow(low), Pow(high), Below(high));
  }

  lemma Powers()
    ensures Pow(0) == 0x1 && Pow(1) == 0x2 && Pow(2) == 0x4 && Pow(3) == 0x8
    ensures Pow(4) == 0x10 && Pow(5) == 0x20 && Pow(6) == 0x40 && Pow(7) == 0x80
    ensures Pow(8) == 0x100 && Pow(9) == 0x200 && Pow(10) == 0x400 && Pow(11) == 0x800
    ensures Pow(12) == 0x1000 && Pow(13) == 0x2000 && Pow(14) == 0x4000 && Pow(15) == 0x8000
    ensures Pow(16) == 0x10000 && Pow(17) == 0x20000 && Pow(18) == 0x40000 && Pow(19) == 0x80000
    ensures Pow(20) == 0x100000 && Pow(21) == 0x200000 && Pow(22) == 0x400000 && Pow(23) == 0x800000
  {
  }

  lemma Masks(k: nat)
    requires k < 24
    ensures BIG_BYTE[k].bits == Pow(23 - k)
  {
    hide Pow;
    Powers();
  }

  lemma JoinedHas(g: bv64, x: bv64)
    ensures Has(Joined(g, x), x)
  {
  }

  lemma JoinedSame(g: bv64, x: bv64, y: bv64)
    requires Lacks(x, y)
    ensures Joined(g, x) & y == g & y
  {
  }

  lemma JoinedKeeps(g: bv64, x: bv64, y: bv64)
    requires Lacks(x, y)
    ensures Has(Joined(g, x), y) == Has(g, y) && Lacks(Joined(g, x), y) == Lacks(g, y)
  {
    hide Joined;
    JoinedSame(g, x, y);
  }

  /** The bit of the halves that the second choice puts at place k of a word. */
  function Second(r: seq<bool>, half: nat, k: nat): bool
    requires |r| == KEY_BITS && half < 2 && k < 24
  {
    r[PC2[k + 24 * half]]
  }

  lemma GatherStep(r: seq<bool>, half: nat, n: nat)
    requires |r| == KEY_BITS && half < 2 && n < 24
    ensures Gathered(r, half, 0).bits == 0
    ensures Gathered(r, half, n + 1).bits
            == if Second(r, half, n) then Joined(Gathered(r, half, n).bits, Pow(23 - n))
               else Gathered(r, half, n).bits
  {
    hide Pow;
    Masks(n);
  }

  predicate Shows(g: Word, k: nat, b: bool)
    requires k < 24
  {
    if b then Has(g.bits, Pow(23 - k)) else Lacks(g.bits, Pow(23 - k))
  }

  /** Bit k of the bits gathered so far. */
  lemma {:induction false} GatheredBit(r: seq<bool>, half: nat, n: nat, k: nat)
    requires |r| == KEY_BITS && half < 2 && n <= 24 && k < 24
    ensures Shows(Gathered(r, half, n), k, k < n && Second(r, half, k))
  {
    hide Pow, Joined, Has, Lacks, Gathered, Second;
    if n == 0 {
      GatherStep(r, half, 0);
      OneHeld(Pow(23 - k));
    } else {
      GatheredBit(r, half, n - 1, k);
      GatherStep(r, half, n - 1);
      if k == n - 1 {
        JoinedHas(Gathered(r, half, n - 1).bits, Pow(23 - k));
      } else {
        BitsApart(24 - n, 23 - k);
        JoinedKeeps(Gathered(r, half, n - 1).bits, Pow(24 - n), Pow(23 - k));
      }
    }
  }

  /** Six bits of a gathered word, from its most significant of 24 on. */
  function SixOf(g: bv64, q: nat): bv6
    requires q < 4
  {
    match q
    case 0 => ((g >> 18) & 0x3f) as bv6
    case 1 => ((g >> 12) & 0x3f) as bv6
    case 2 => ((g >> 6) & 0x3f) as bv6
    case _ => (g & 0x3f) as bv6
  }

  lemma CookedFirst(a: Word, b: Word)
    ensures var w := CookFirst(a, b).bits;
            && Field3(w) == SixOf(a.bits, 0) && Field2(w) == SixOf(a.bits, 2)
            && Field1(w) == SixOf(b.bits, 0) && Field0(w) == SixOf(b.bits, 2)
  {
  }

  lemma CookedSecond(a: Word, b: Word)
    ensures var w := CookSecond(a, b).bits;
            && Field3(w) == SixOf(a.bits, 1) && Field2(w) == SixOf(a.bits, 3)
            && Field1(w) == SixOf(b.bits, 1) && Field0(w) == SixOf(b.bits, 3)
  {
  }

  /** Each box is given the next six of the 48 bits. */
  lemma BoxKeyIs(key: seq<Octet>, i: nat, s: nat)
    requires |key| == BLOCK_BYTES && i < ROUNDS && s < 8
    ensures BoxKey(Pair(key, i), s) == SixOf(Raw(key, i, s / 4).bits, s % 4)
  {
    hide Raw, BoxKey, SixOf, CookFirst, CookSecond;
    BoxKeysCooked(Raw(key, i, 0), Raw(key, i, 1), s);
  }

  lemma BoxKeysCooked(a: Word, b: Word, s: nat)
    requires s < 8
    ensures BoxKey([CookFirst(a, b), CookSecond(a, b)], s) == SixOf((if s < 4 then a else b).bits, s % 4)
  {
    hide CookFirst, CookSecond, SixOf, Field0, Field1, Field2, Field3;
    if s % 2 == 0 { CookedFirst(a, b); } else { CookedSecond(a, b); }
  }

  predicate SixShows(f: bv6, k: nat, b: bool)
    requires k < 6
  {
    f & SIX_BIT[k] != 0 <==> b
  }

  /** What is seen of a mask in a word is what is seen of it in six of its bits. */
  predicate SameBits(f: bv6, x: bv6, g: bv64, y: bv64) {
    (Has(g, y) ==> f & x == x) && (Lacks(g, y) ==> f & x == 0)
  }

  /** Six bits where they lie in a gathered word. */
  function Spread(x: bv6, q: nat): bv64
    requires q < 4
  {
    match q
    case 0 => (x as bv64) << 18
    case 1 => (x as bv64) << 12
    case 2 => (x as bv64) << 6
    case _ => x as bv64
  }

  lemma SixBits0(g: bv64, x: bv6)
    ensures SameBits(SixOf(g, 0), x, g, Spread(x, 0))
  {
  }

  lemma SixBits1(g: bv64, x: bv6)
    ensures SameBits(SixOf(g, 1), x, g, Spread(x, 1))
  {
  }

  lemma SixBits2(g: bv64, x: bv6)
    ensures SameBits(SixOf(g, 2), x, g, Spread(x, 2))
  {
  }

  lemma SixBits3(g: bv64, x: bv6)
    ensures SameBits(SixOf(g, 3), x, g, Spread(x, 3))
  {
  }

  lemma SixBits(g: bv64, q: nat, x: bv6)
    requires q < 4
    ensures SameBits(SixOf(g, q), x, g, Spread(x, q))
  {
    hide SameBits, SixOf, Spread;
    match q
    case 0 => SixBits0(g, x);
    case 1 => SixBits1(g, x);
    case 2 => SixBits2(g, x);
    case _ => SixBits3(g, x);
  }

  lemma SixMask(q: nat, k: nat)
    requires q < 4 && k < 6
    ensures Pow(23 - (6 * q + k)) == Spread(SIX_BIT[k], q) && SIX_BIT[k] != 0
  {
    hide Pow;
    Powers();
  }

  lemma SixDecided(f: bv6, x: bv6, g: bv64, y: bv64, b: bool)
    requires SameBits(f, x, g, y) && x != 0 && if b then Has(g, y) else Lacks(g, y)
    ensures f & x != 0 <==> b
  {
  }

  lemma SixShown(g: Word, q: nat, k: nat, b: bool)
    requires q < 4 && k < 6 && Shows(g, 6 * q + k, b)
    ensures SixShows(SixOf(g.bits, q), k, b)
  {
    hide Pow, Has, Lacks, SixOf, SameBits, Spread;
    SixMask(q, k);
    SixBits(g.bits, q, SIX_BIT[k]);
    SixDecided(SixOf(g.bits, q), SIX_BIT[k], g.bits, Pow(23 - (6 * q + k)), b);
  }

  lemma WordBit(key: seq<Octet>, i: nat, half: nat, k: nat)
    requires |key| == BLOCK_BYTES && i < ROUNDS && half < 2 && k < 24
    ensures Shows(Raw(key, i, half), k, Subkey(key, i + 1)[24 * half + k])
  {
    hide Shows, Gathered, Subkey, Rotated, Chosen;
    GatheredBit(Rotated(Chosen(key), i), half, 24, k);
    SubkeyBit(key, i, 24 * half + k);
  }

  /**
   * For every key, round, substitution box and bit: the words of the round give the box the six bits that the
   * standard's schedule gives it.
   */
  lemma ScheduleIsStandard(key: seq<Octet>, i: nat, s: nat, k: nat)
    requires |key| == BLOCK_BYTES && i < ROUNDS && s < 8 && k < 6
    ensures BoxKey(Pair(key, i), s) & SIX_BIT[k] != 0 <==> Subkey(key, i + 1)[6 * s + k]
  {
    hide Raw, Shows, BoxKey, Subkey, SixOf, Pair;
    BoxKeyIs(key, i, s);
    var half, q := s / 4, s % 4;
    assert 24 * half + (6 * q + k) == 6 * s + k;
    WordBit(key, i, half, 6 * q + k);
    SixShown(Raw(key, i, half), q, k, Subkey(key, i + 1)[6 * s + k]);
  }
}
