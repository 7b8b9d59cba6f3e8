/** The rehashing string index: probing, growth, and its agreement with a plain set of strings. */
module StringTables {
  import opened Bits
  import opened Options

  /** Strings are bytes.  Hash and upper-casing are any functions. */
  type Str = seq<byte>

  datatype Hashing = Hashing(hash: (Str, u32) -> u32, upper: Str -> Str)

  /** An entry is free while its hash is zero. */
  datatype Entry = Entry(keyHash: u32, key: Str, value: Str)

  const FREE_ENTRY := Entry(0, [], [])

  /** Longer strings are not looked up. */
  const LONG: nat := 0x1000

  /** The hash after n rehashes. */
  function Chain(h: Hashing, key: Str, n: nat): u32 {
    h.hash(h.upper(key), if n == 0 then 0 else Chain(h, key, n - 1))
  }

  /** The hashes of the upper-cased key in turn: the first from zero, every other from the one before it. */
  ghost predicate HashesInTurn(h: Hashing, key: Str, hashes: seq<u32>) {
    && (hashes != [] ==> hashes[0] == h.hash(h.upper(key), 0))
    && forall n :: 0 < n < |hashes| ==> hashes[n] == h.hash(h.upper(key), hashes[n - 1])
  }

  lemma {:induction false} ChainRow(h: Hashing, key: Str, hashes: seq<u32>, n: nat)
    requires HashesInTurn(h, key, hashes) && n < |hashes|
    ensures Chain(h, key, n) == hashes[n]
  {
    if n > 0 { ChainRow(h, key, hashes, n - 1); }
  }

  /** Keys that differ only in case have the same probes. */
  lemma {:induction false} CaseOnly(h: Hashing, a: Str, b: Str, n: nat)
    requires h.upper(a) == h.upper(b)
    ensures Chain(h, a, n) == Chain(h, b, n)
  {
    if n > 0 { CaseOnly(h, a, b, n - 1); }
  }

  predicate Occupied(t: seq<Entry>, i: nat) {
    i < |t| && t[i].keyHash != 0
  }

  ghost function Slots(t: seq<Entry>): set<nat> {
    set i: nat | i < |t| && Occupied(t, i)
  }

  ghost function Keys(t: seq<Entry>): set<Str> {
    set i: nat | i < |t| && Occupied(t, i) :: t[i].key
  }

  ghost function Items(t: seq<Entry>): set<(Str, Str)> {
    set i: nat | i < |t| && Occupied(t, i) :: (t[i].key, t[i].value)
  }

  /** Probe n ends the search: the hash is zero, the slot is free, or it holds the key. */
  predicate StopsAt(h: Hashing, t: seq<Entry>, key: Str, n: nat)
    requires t != []
  {
    var c := Chain(h, key, n);
    var e := t[c % |t|];
    c == 0 || e.keyHash == 0 || (e.keyHash == c && e.key == key)
  }

  ghost predicate FirstStop(h: Hashing, t: seq<Entry>, key: Str, n: nat)
    requires t != []
  {
    StopsAt(h, t, key, n) && forall m: nat :: m < n ==> !StopsAt(h, t, key, m)
  }

  datatype Lookup = Lookup(res: nat, index: nat, hash: u32)

  function OutcomeAt(h: Hashing, t: seq<Entry>, key: Str, n: nat): Lookup
    requires t != []
  {
    var c := Chain(h, key, n);
    Lookup(if c == 0 then 2 else if t[c % |t|].keyHash == 0 then 0 else 1, c % |t|, c)
  }

  ghost predicate Stops(h: Hashing, t: seq<Entry>, key: Str)
    requires t != []
  {
    exists n: nat :: FirstStop(h, t, key, n)
  }

  /** What the search returns; long keys leave the targets as they were, zero. */
  ghost function Find(h: Hashing, t: seq<Entry>, key: Str): Lookup
    requires t != [] && (|key| < LONG ==> Stops(h, t, key))
  {
    if |key| >= LONG then Lookup(0, 0, 0)
    else
      var n: nat :| FirstStop(h, t, key, n);
      OutcomeAt(h, t, key, n)
  }

  lemma FindIs(h: Hashing, t: seq<Entry>, key: Str, n: nat)
    requires t != [] && |key| < LONG && FirstStop(h, t, key, n)
    ensures Find(h, t, key) == OutcomeAt(h, t, key, n)
  {
    var k: nat :| FirstStop(h, t, key, k) && Find(h, t, key) == OutcomeAt(h, t, key, k);
  }

  lemma {:induction false} SomeFirst(h: Hashing, t: seq<Entry>, key: Str, n: nat) returns (k: nat)
    requires t != [] && StopsAt(h, t, key, n)
    ensures k <= n && FirstStop(h, t, key, k)
  {
    if m: nat :| m < n && StopsAt(h, t, key, m) {
      k := SomeFirst(h, t, key, m);
    } else {
      k := n;
    }
  }

  // ---- the hypothesis on the hash ----

  predicate PowerOfTwo(n: nat)
    decreases n
  {
    n == 1 || (n > 1 && n % 2 == 0 && PowerOfTwo(n / 2))
  }

  /** Probe n falls outside the given slots and no hash before it is zero. */
  ghost predicate Escapes(h: Hashing, key: Str, size: nat, taken: set<nat>, n: nat)
    requires size > 0
  {
    Chain(h, key, n) % size !in taken && forall m: nat :: m <= n ==> Chain(h, key, m) != 0
  }

  const LARGEST: nat := 0x8000_0000

  /** The probes of the key leave the occupied slots of the table before its hash is zero. */
  ghost predicate FindsRoom(h: Hashing, t: seq<Entry>, key: Str)
    requires t != []
  {
    exists n: nat :: Escapes(h, key, |t|, Slots(t), n)
  }

  /** In a table of this size the probes of the key leave any set of up to three quarters of the slots. */
  ghost predicate SpreadsAt(h: Hashing, key: Str, size: nat)
    requires size > 0
  {
    forall taken: set<nat> :: 4 * |taken| <= 3 * size ==> exists n: nat :: Escapes(h, key, size, taken, n)
  }

  /** The same in every table of up to limit slots. */
  ghost predicate Spreads(h: Hashing, key: Str, limit: nat) {
    forall size: nat :: PowerOfTwo(size) && size <= limit ==> SpreadsAt(h, key, size)
  }

  /** Every one of the keys spreads in a table of this size. */
  ghost predicate AllSpread(h: Hashing, keys: set<Str>, size: nat)
    requires size > 0
  {
    forall key :: key in keys ==> SpreadsAt(h, key, size)
  }

  /** A key whose probes all fall among three quarters of the slots does not spread: its chain must be long enough. */
  lemma ShortChain(h: Hashing, key: Str, size: nat, orbit: set<nat>)
    requires size > 0 && 4 * |orbit| <= 3 * size
    requires forall n: nat :: Chain(h, key, n) % size in orbit
    ensures !SpreadsAt(h, key, size)
  {
    hide Chain;
    assert forall n: nat :: !Escapes(h, key, size, orbit, n);
  }

  // ---- the invariant ----

  /** Entry i sits where the probes of its key first found room: every earlier probe hits an occupied slot. */
  ghost predicate Located(h: Hashing, t: seq<Entry>, i: nat, n: nat)
    requires Occupied(t, i)
  {
    && Chain(h, t[i].key, n) == t[i].keyHash && t[i].keyHash % |t| == i
    && forall m: nat :: m < n ==> Chain(h, t[i].key, m) != 0 && Occupied(t, Chain(h, t[i].key, m) % |t|)
  }

  ghost predicate TableOk(h: Hashing, t: seq<Entry>) {
    && PowerOfTwo(|t|) && |t| <= LARGEST
    && (forall i: nat :: Occupied(t, i) ==> |t[i].key| < LONG && exists n: nat :: Located(h, t, i, n))
    && (forall i: nat, j: nat :: i < j && Occupied(t, i) && Occupied(t, j) ==> t[i].key != t[j].key)
  }

  /** No more than three quarters of the slots are in use. */
  ghost predicate Roomy(t: seq<Entry>) {
    4 * |Slots(t)| <= 3 * |t|
  }

  /** A key in the table is found, at its own slot. */
  lemma FindPresent(h: Hashing, t: seq<Entry>, i: nat)
    requires TableOk(h, t) && Occupied(t, i)
    ensures Stops(h, t, t[i].key) && Find(h, t, t[i].key) == Lookup(1, i, t[i].keyHash)
  {
    hide SpreadsAt, Chain;
    var key := t[i].key;
    var n: nat :| Located(h, t, i, n);
    assert StopsAt(h, t, key, n);
    var k := SomeFirst(h, t, key, n);
    FindIs(h, t, key, k);
    var j := Chain(h, key, k) % |t|;
    assert k < n ==> Occupied(t, j);
    assert Occupied(t, j) && t[j].key == key;
  }

  /** Any other key ends at a free slot exactly if its probes leave the occupied slots before its hash is zero. */
  lemma FindAbsent(h: Hashing, t: seq<Entry>, key: Str)
    requires PowerOfTwo(|t|) && |key| < LONG && key !in Keys(t)
    ensures (Stops(h, t, key) && Find(h, t, key).res == 0) <==> FindsRoom(h, t, key)
    ensures Stops(h, t, key) && !FindsRoom(h, t, key) ==> Find(h, t, key).res == 2 && Find(h, t, key).hash == 0
  {
    hide Chain;
    if n: nat :| Escapes(h, key, |t|, Slots(t), n) {
      var k := FreeProbe(h, t, key, n);
    }
    if Stops(h, t, key) {
      var k: nat :| FirstStop(h, t, key, k);
      FindIs(h, t, key, k);
      var c := Chain(h, key, k);
      assert c != 0 ==> !Occupied(t, c % |t|);
      if c != 0 {
        forall m: nat | m <= k
          ensures Chain(h, key, m) != 0
        {
          assert m < k ==> !StopsAt(h, t, key, m);
        }
        assert Escapes(h, key, |t|, Slots(t), k);
      }
    }
  }

  /** The first free slot on the way of a key that is not in the table. */
  lemma FreeProbe(h: Hashing, t: seq<Entry>, key: Str, n: nat) returns (k: nat)
    requires PowerOfTwo(|t|) && |key| < LONG && key !in Keys(t) && Escapes(h, key, |t|, Slots(t), n)
    ensures FirstStop(h, t, key, k)
    ensures var c := Chain(h, key, k);
            c != 0 && !Occupied(t, c % |t|) && Find(h, t, key) == Lookup(0, c % |t|, c)
    ensures forall m: nat :: m < k ==> Chain(h, key, m) != 0 && Occupied(t, Chain(h, key, m) % |t|)
  {
    hide Chain;
    assert Chain(h, key, n) % |t| !in Slots(t);
    assert StopsAt(h, t, key, n);
    k := SomeFirst(h, t, key, n);
    FindIs(h, t, key, k);
    forall m: nat | m < k
      ensures Chain(h, key, m) != 0 && Occupied(t, Chain(h, key, m) % |t|)
    {
      assert !StopsAt(h, t, key, m);
    }
  }

  // ---- the hypothesis can be met ----

  lemma {:induction false} RoomOutside(size: nat, taken: set<nat>) returns (r: nat)
    requires |taken| < size
    ensures r < size && r !in taken
  {
    if size - 1 in taken {
      r := RoomOutside(size - 1, taken - {size - 1});
    } else {
      r := size - 1;
    }
  }

  const COUNTING := Hashing((s: Str, prev: u32) => Wrap32(prev + 1), (s: Str) => s)

  lemma ChainStep(key: Str, n: nat)
    ensures Chain(COUNTING, key, n) == Wrap32((if n == 0 then 0 else Chain(COUNTING, key, n - 1)) + 1)
  {
  }

  lemma CountsUp(n: nat)
    requires n < 0xffff_ffff
    ensures Wrap32(n + 1) == n + 1
  {
  }

  lemma {:induction false} CountingChain(key: Str, n: nat)
    requires n < 0xffff_ffff
    ensures Chain(COUNTING, key, n) == n + 1
  {
    hide Chain, Wrap32;
    ChainStep(key, n);
    if n > 0 { CountingChain(key, n - 1); }
    CountsUp(n);
  }

  /** A hash that counts the rehashes spreads every key in tables of any size. */
  lemma CountingSpreads(key: Str)
    ensures Spreads(COUNTING, key, LARGEST)
  {
    hide Escapes;
    forall size: nat | PowerOfTwo(size) && size <= LARGEST
      ensures SpreadsAt(COUNTING, key, size)
    {
      forall taken: set<nat> | 4 * |taken| <= 3 * size
        ensures exists n: nat :: Escapes(COUNTING, key, size, taken, n)
      {
        var r := RoomOutside(size, taken);
        CountingEscapes(key, size, taken, r);
      }
    }
  }

  lemma EscapesIf(h: Hashing, key: Str, size: nat, taken: set<nat>, n: nat, r: nat)
    requires size > 0 && Chain(h, key, n) % size == r && r !in taken
    requires forall m: nat :: m <= n ==> Chain(h, key, m) != 0
    ensures Escapes(h, key, size, taken, n)
  {
    hide Chain;
  }

  lemma CountingEscapes(key: Str, size: nat, taken: set<nat>, r: nat)
    requires r < size <= LARGEST && r !in taken
    ensures Escapes(COUNTING, key, size, taken, if r == 0 then size - 1 else r - 1)
  {
    hide Chain, Escapes;
    var n := if r == 0 then size - 1 else r - 1;
    forall m: nat | m <= n
      ensures Chain(COUNTING, key, m) != 0
    {
      CountingChain(key, m);
    }
    CountingChain(key, n);
    ModUnique(n + 1, size, if r == 0 then 1 else 0, r);
    EscapesIf(COUNTING, key, size, taken, n, r);
  }

  // ---- inserting ----

  /** The entry put where the search for its key ended, under the hash it ended with. */
  ghost function Place(t: seq<Entry>, f: Lookup, e: Entry): (r: seq<Entry>)
    requires f.index < |t|
    ensures |r| == |t|
  {
    t[f.index := e.(keyHash := f.hash)]
  }

  lemma SpreadsOut(h: Hashing, t: seq<Entry>, key: Str)
    requires TableOk(h, t) && Roomy(t) && SpreadsAt(h, key, |t|)
    ensures FindsRoom(h, t, key)
  {
    hide Chain;
  }

  lemma PlaceKeeps(h: Hashing, t: seq<Entry>, e: Entry)
    requires TableOk(h, t) && |e.key| < LONG && e.key !in Keys(t)
    requires FindsRoom(h, t, e.key)
    ensures Stops(h, t, e.key)
    ensures var f := Find(h, t, e.key);
            var t' := Place(t, f, e);
            && f.res == 0 && f.index < |t| && !Occupied(t, f.index)
            && TableOk(h, t') && Keys(t') == Keys(t) + {e.key} && Items(t') == Items(t) + {(e.key, e.value)}
            && Slots(t') == Slots(t) + {f.index} && |Slots(t')| == |Slots(t)| + 1
  {
    hide Chain;
    var last: nat :| Escapes(h, e.key, |t|, Slots(t), last);
    var k := FreeProbe(h, t, e.key, last);
    var f := Find(h, t, e.key);
    var t' := Place(t, f, e);
    assert forall i: nat :: Occupied(t', i) <==> i == f.index || Occupied(t, i);
    forall i: nat | Occupied(t', i)
      ensures exists n: nat :: Located(h, t', i, n)
    {
      if i == f.index {
        assert Located(h, t', i, k);
      } else {
        var n: nat :| Located(h, t, i, n);
        assert Located(h, t', i, n);
      }
    }
    KeysPlaced(t, f, e);
  }

  lemma KeysPlaced(t: seq<Entry>, f: Lookup, e: Entry)
    requires f.index < |t| && !Occupied(t, f.index) && f.hash != 0
    ensures var t' := Place(t, f, e);
            && Keys(t') == Keys(t) + {e.key} && Items(t') == Items(t) + {(e.key, e.value)}
            && Slots(t') == Slots(t) + {f.index}
  {
    var t' := Place(t, f, e);
    assert Occupied(t', f.index);
    assert forall i: nat :: Occupied(t, i) ==> Occupied(t', i) && t'[i] == t[i];
    assert forall i: nat :: Occupied(t', i) ==> i == f.index || (Occupied(t, i) && t'[i] == t[i]);
    SameItems(t, t', f.index);
  }

  lemma SameItems(t: seq<Entry>, t': seq<Entry>, k: nat)
    requires Occupied(t', k)
    requires forall i: nat :: Occupied(t, i) ==> Occupied(t', i) && t'[i] == t[i]
    requires forall i: nat :: Occupied(t', i) ==> i == k || (Occupied(t, i) && t'[i] == t[i])
    ensures Keys(t') == Keys(t) + {t'[k].key} && Items(t') == Items(t) + {(t'[k].key, t'[k].value)}
            && Slots(t') == Slots(t) + {k}
  {
    forall x | x in Items(t)
      ensures x in Items(t')
    {
      var i: nat :| i < |t| && Occupied(t, i) && (t[i].key, t[i].value) == x;
      assert Occupied(t', i);
    }
    forall x | x in Keys(t)
      ensures x in Keys(t')
    {
      var i: nat :| i < |t| && Occupied(t, i) && t[i].key == x;
      assert Occupied(t', i);
    }
    forall x | x in Keys(t')
      ensures x in Keys(t) + {t'[k].key}
    {
      var i: nat :| i < |t'| && Occupied(t', i) && t'[i].key == x;
      if i != k { assert Occupied(t, i); }
    }
    forall x | x in Items(t')
      ensures x in Items(t) + {(t'[k].key, t'[k].value)}
    {
      var i: nat :| i < |t'| && Occupied(t', i) && (t'[i].key, t'[i].value) == x;
      if i != k { assert Occupied(t, i); }
    }
  }

  // ---- growing ----

  predicate HasBit(sz: nat, bit: nat)
    requires bit > 0
  {
    sz / bit % 2 == 1
  }

  /** The least power of two that is at least sz, found from its highest bit. */
  method NextSize(sz: u32) returns (size: u32)
    ensures sz == 0 ==> size == 0
    ensures 0 < sz <= LARGEST ==> PowerOfTwo(size) && sz <= size < 2 * sz && size <= LARGEST
    ensures sz > LARGEST ==> size == 0
  {
    hide PowerOfTwo, HasBit;
    if sz == 0 {
      return 0;
    }
    var bit := LARGEST;
    LargestIsPower();
    while !HasBit(sz, bit)
      invariant 1 <= bit <= LARGEST && PowerOfTwo(bit) && sz < 2 * bit
                && (bit == LARGEST || (sz < LARGEST && 2 * bit <= LARGEST))
      decreases bit
    {
      HighestBit(sz, bit);
      HalfPower(bit);
      bit := bit / 2;
    }
    HighestBit(sz, bit);
    DoublePower(bit);
    size := if sz != bit then Wrap32(2 * bit) else bit;
  }

  /** The size of a table for which newSize slots are asked. */
  predicate GrowsTo(newSize: nat, size: nat) {
    PowerOfTwo(size) && newSize <= size < 2 * newSize && (PowerOfTwo(newSize) ==> size == newSize)
  }

  lemma LargestIsPower()
    ensures PowerOfTwo(LARGEST)
  {
    hide PowerOfTwo;
    assert PowerOfTwo(1) by { OneIsPower(); }
    SixteenTimes(0x1);
    SixteenTimes(0x10);
    SixteenTimes(0x100);
    SixteenTimes(0x1000);
    SixteenTimes(0x1_0000);
    SixteenTimes(0x10_0000);
    SixteenTimes(0x100_0000);
    DoublePower(0x1000_0000);
    DoublePower(0x2000_0000);
    DoublePower(0x4000_0000);
  }

  lemma OneIsPower()
    ensures PowerOfTwo(1)
  {
  }

  lemma SixteenTimes(n: nat)
    requires PowerOfTwo(n)
    ensures PowerOfTwo(16 * n)
  {
    hide PowerOfTwo;
    DoublePower(n);
    DoublePower(2 * n);
    DoublePower(4 * n);
    DoublePower(8 * n);
  }

  lemma HighestBit(sz: nat, bit: nat)
    requires 0 < sz < 2 * bit
    ensures HasBit(sz, bit) <==> bit <= sz
  {
    if sz >= bit { ModUnique(sz, bit, 1, sz - bit); } else { ModUnique(sz, bit, 0, sz); }
  }

  lemma HalfPower(bit: nat)
    requires PowerOfTwo(bit) && bit > 1
    ensures PowerOfTwo(bit / 2) && bit == 2 * (bit / 2)
  {
  }

  /** How far the watermark can be below three quarters. */
  lemma Watermark(h: Hashing, t: seq<Entry>)
    requires TableOk(h, t)
    ensures 4 * (|t| * 3 / 4) >= 3 * |t| - if |t| == 1 then 3 else 2
  {
    ThreeQuarters(|t|);
  }

  lemma ThreeQuarters(n: nat)
    requires n == 1 || n % 2 == 0
    ensures 4 * (n * 3 / 4) >= 3 * n - if n == 1 then 3 else 2
  {
    var q := n / 2 / 2;
    if n == 1 {
      ModUnique(3, 4, 0, 3);
    } else if n / 2 % 2 == 0 {
      assert n == 4 * q;
      ModUnique(n * 3, 4, 3 * q, 0);
    } else {
      assert n == 4 * q + 2;
      ModUnique(n * 3, 4, 3 * q + 1, 2);
    }
  }

  lemma DoublePower(bit: nat)
    requires PowerOfTwo(bit)
    ensures PowerOfTwo(2 * bit)
  {
  }

  // ---- the table as the object keeps it ----

  /** The first i old entries have been put into the new table. */
  ghost predicate Moved(h: Hashing, olds: seq<Entry>, i: nat, t: seq<Entry>)
    requires i <= |olds|
  {
    TableOk(h, t) && Keys(t) == Keys(olds[..i]) && Items(t) == Items(olds[..i]) && |Slots(t)| == |Slots(olds[..i])|
  }

  lemma SlotsBound(t: seq<Entry>, i: nat)
    requires i <= |t|
    ensures |Slots(t[..i])| <= |Slots(t)|
  {
    assert Slots(t[..i]) <= Slots(t);
    SubsetSize(Slots(t[..i]), Slots(t));
  }

  lemma {:induction false} SubsetSize<T>(a: set<T>, b: set<T>)
    requires a <= b
    ensures |a| <= |b|
  {
    if a != {} {
      var x :| x in a;
      SubsetSize(a - {x}, b - {x});
    }
  }

  /** An entry of a sound table has a key of its own. */
  lemma OwnKey(h: Hashing, olds: seq<Entry>, i: nat)
    requires TableOk(h, olds) && i < |olds| && Occupied(olds, i)
    ensures |olds[i].key| < LONG && olds[i].key !in Keys(olds[..i]) && olds[i].key in Keys(olds)
  {
    hide Located, Chain;
  }

  /** One more occupied slot at the end of the part seen. */
  lemma PrefixGrows(olds: seq<Entry>, i: nat)
    requires i < |olds| && Occupied(olds, i)
    ensures Keys(olds[..i + 1]) == Keys(olds[..i]) + {olds[i].key}
    ensures Items(olds[..i + 1]) == Items(olds[..i]) + {(olds[i].key, olds[i].value)}
    ensures |Slots(olds[..i + 1])| == |Slots(olds[..i])| + 1
  {
    hide Keys, Items;
    SameItems(olds[..i], olds[..i + 1], i);
  }

  /** A table that holds no more than a roomy one of at most its size is roomy. */
  lemma StaysRoomy(olds: seq<Entry>, i: nat, t: seq<Entry>)
    requires Roomy(olds) && i < |olds| <= |t| && |Slots(t)| == |Slots(olds[..i])|
    ensures Roomy(t)
  {
    hide Slots;
    SlotsBound(olds, i);
  }

  /** One more old entry moves, unless it is free. */
  lemma MoveStep(h: Hashing, olds: seq<Entry>, i: nat, t: seq<Entry>)
    requires TableOk(h, olds) && Roomy(olds) && i < |olds| <= |t| && Moved(h, olds, i, t)
    requires AllSpread(h, Keys(olds), |t|)
    ensures !Occupied(olds, i) ==> Moved(h, olds, i + 1, t)
    ensures Occupied(olds, i) ==>
        Stops(h, t, olds[i].key) && Find(h, t, olds[i].key).res == 0 && Find(h, t, olds[i].key).index < |t|
        && Moved(h, olds, i + 1, Place(t, Find(h, t, olds[i].key), olds[i]))
        && |Slots(Place(t, Find(h, t, olds[i].key), olds[i]))| == |Slots(t)| + 1
  {
    hide SpreadsAt, Chain, Find, Stops, TableOk, Keys, Items, Slots, FindsRoom, Roomy, Place;
    if Occupied(olds, i) {
      OwnKey(h, olds, i);
      StaysRoomy(olds, i, t);
      SpreadsOut(h, t, olds[i].key);
      PlaceKeeps(h, t, olds[i]);
      PrefixGrows(olds, i);
    } else {
      SkipFree(olds, i);
    }
  }

  lemma SkipFree(olds: seq<Entry>, i: nat)
    requires i < |olds| && !Occupied(olds, i)
    ensures Keys(olds[..i + 1]) == Keys(olds[..i]) && Items(olds[..i + 1]) == Items(olds[..i])
            && Slots(olds[..i + 1]) == Slots(olds[..i])
  {
    var before, after := olds[..i], olds[..i + 1];
    assert forall j: nat :: Occupied(after, j) <==> Occupied(before, j);
    assert forall j: nat :: Occupied(before, j) ==> after[j] == before[j];
  }

  class CoXHashMap {
    const h: Hashing
    var storage: seq<Entry>
    var inUse: nat

    ghost predicate Valid()
      reads this
    {
      TableOk(h, storage) && Roomy(storage) && inUse == |Slots(storage)|
    }

    method FindIndex(key: Str) returns (res: nat, index: nat, hash: u32)
      requires storage != [] && (|key| < LONG ==> Stops(h, storage, key))
      ensures Lookup(res, index, hash) == Find(h, storage, key)
      ensures |key| >= LONG ==> (res, index, hash) == (0, 0, 0)
      ensures res == 1 ==> index < |storage| && storage[index].key == key && storage[index].keyHash != 0
      ensures res == 0 && |key| < LONG ==> index < |storage| && storage[index].keyHash == 0
    {
      if |key| >= LONG {
        return 0, 0, 0;
      }
      ghost var last: nat :| FirstStop(h, storage, key, last);
      FindIs(h, storage, key, last);
      var tmpKey := h.upper(key);
      hash := h.hash(tmpKey, 0);
      ghost var n := 0;
      while true
        invariant n <= last && hash == Chain(h, key, n)
        decreases last - n
      {
        assert StopsAt(h, storage, key, n) ==> n == last;
        index := hash % |storage|;
        if hash == 0 {
          return 2, index, hash;
        }
        var entry := storage[index];
        if entry.keyHash == 0 {
          return 0, index, hash;
        }
        if hash == entry.keyHash && key == entry.key {
          return 1, index, hash;
        }
        hash := h.hash(tmpKey, hash);
        n := n + 1;
      }
    }

    constructor (hashing: Hashing, sz: u32)
      requires 0 < sz <= LARGEST
      ensures Valid() && h == hashing && Items(storage) == {} && Keys(storage) == {} && inUse == 0
      ensures sz <= |storage| < 2 * sz && (PowerOfTwo(sz) ==> |storage| == sz)
    {
      h := hashing;
      inUse := 0;
      var size := NextSize(sz);
      PowersApart(sz, size);
      storage := seq(size, _ => FREE_ENTRY);
    }

    /** Every entry moves to the larger table; none is lost if all keys spread there. */
    method Resize(newSize: u32)
      requires Valid() && |storage| <= newSize <= LARGEST
      requires forall size: nat :: GrowsTo(newSize, size) ==> AllSpread(h, Keys(storage), size)
      modifies this
      ensures Valid() && inUse == old(inUse)
      ensures Keys(storage) == old(Keys(storage)) && Items(storage) == old(Items(storage))
      ensures newSize <= |storage| < 2 * newSize && (PowerOfTwo(newSize) ==> |storage| == newSize)
    {
      hide SpreadsAt, Chain, Find, Stops;
      assert |storage| > 0;
      hide TableOk;
      var oldEntries := storage;
      inUse := 0;
      var size := NextSize(newSize);
      PowersApart(newSize, size);
      hide AllSpread;
      storage := seq(size, _ => FREE_ENTRY);
      assert Moved(h, oldEntries, 0, storage) by { FreshMoved(h, oldEntries, storage); }
      for idx := 0 to |oldEntries|
        invariant |storage| == size && Moved(h, oldEntries, idx, storage) && inUse == |Slots(storage)|
      {
        MoveStep(h, oldEntries, idx, storage);
        if oldEntries[idx].keyHash != 0 {
          var res, entryIdx, prevVal := FindIndex(oldEntries[idx].key);
          assert res != 2;
          storage := storage[entryIdx := oldEntries[idx].(keyHash := prevVal)];
          inUse := inUse + 1;
        }
      }
      assert oldEntries[..|oldEntries|] == oldEntries;
    }

    /** At least three quarters of the slots are in use. */
    predicate IsFull()
      reads this
    {
      inUse >= |storage| * 3 / 4
    }

    /** If the table is full, its keys spread in one of twice the size. */
    ghost predicate CanGrow()
      requires Valid()
      reads this
    {
      IsFull() ==> |storage| <= LARGEST / 2 && AllSpread(h, Keys(storage), 2 * |storage|)
    }

    /** The probes of the key leave the occupied slots of the table it is to be put in. */
    ghost predicate Admits(k: Str)
      requires Valid()
      reads this
    {
      if IsFull() then SpreadsAt(h, k, 2 * |storage|)
      else k !in Keys(storage) ==> FindsRoom(h, storage, k)
    }

    /** Doubles a table that is three quarters full. */
    method GrowIfFull()
      requires Valid() && CanGrow()
      modifies this
      ensures Valid() && inUse == old(inUse) && 4 * (inUse + 1) <= 3 * |storage|
      ensures Keys(storage) == old(Keys(storage)) && Items(storage) == old(Items(storage))
      ensures if old(IsFull()) then |storage| == 2 * old(|storage|) else storage == old(storage)
    {
      hide SpreadsAt, Chain;
      var watermark := |storage| * 3 / 4;
      if inUse >= watermark || inUse >= |storage| {
        var factor := 1;
        if inUse >= watermark || inUse >= |storage| - 1 {
          factor := 2;
        }
        DoublePower(|storage|);
        Resize(factor * |storage|);
      }
    }

    /** Adds the key with its value unless it is there already.  A long key overwrites slot 0 as a free entry. */
    method InsertEntry(k: Str, v: Str) returns (ok: bool)
      requires Valid() && CanGrow() && (|k| < LONG ==> Admits(k))
      modifies this
      ensures |storage| == if old(IsFull()) then 2 * old(|storage|) else old(|storage|)
      ensures |k| < LONG ==> Valid() && (ok <==> k !in old(Keys(storage)))
      ensures |k| < LONG && ok ==> Keys(storage) == old(Keys(storage)) + {k} && inUse == old(inUse) + 1
      ensures |k| < LONG && ok ==> Items(storage) == old(Items(storage)) + {(k, v)}
      ensures |k| < LONG && !ok ==>
              Keys(storage) == old(Keys(storage)) && Items(storage) == old(Items(storage)) && inUse == old(inUse)
      ensures |k| >= LONG ==>
              (exists t :: Overwritten(h, t, old(Keys(storage)), k, v, storage)) && ok && inUse == old(inUse) + 1
    {
      hide SpreadsAt, Chain, Find, Stops, AllSpread, FindsRoom, Keys, Items, Slots;
      GrowIfFull();
      hide TableOk;
      ghost var t := storage;
      if |k| < LONG && old(IsFull()) { SpreadsOut(h, t, k); }
      InsertFinds(h, t, k);
      var res, entryIdx, prevVal := FindIndex(k);
      if res != 0 {
        return false;
      }
      storage := storage[entryIdx := Entry(prevVal, k, v)];
      inUse := inUse + 1;
      if |k| < LONG {
        PlaceKeeps(h, t, Entry(prevVal, k, v));
      } else {
        assert Overwritten(h, t, old(Keys(storage)), k, v, storage);
      }
      return true;
    }

    /** The string at a one-based index, if that slot is occupied. */
    function KeyForIdx(idx: int): Option<Str>
      reads this
    {
      if 0 <= idx - 1 < |storage| && storage[idx - 1].keyHash != 0 then Some(storage[idx - 1].key) else None
    }

    /**
     * Filling a fresh table with any names, in any order and with any repetitions.  The names are assumed to spread in
     * the tables that so many different names lead to, and in no larger ones.
     */
    method Fill(names: seq<Str>, ghost limit: nat)
      requires Valid() && inUse == 0 && |storage| <= limit <= LARGEST
      requires var n := |set k | k in names|; n >= |storage| * 3 / 4 ==> 8 * n + 6 <= 3 * limit
      requires forall k :: k in names ==> |k| < LONG && Spreads(h, k, limit)
      modifies this
      ensures Valid() && Keys(storage) == (set k | k in names) && inUse == |Keys(storage)|
      ensures |storage| == old(|storage|) || 3 * |storage| <= 8 * inUse + 6
    {
      hide SpreadsAt, Spreads, Chain, TableOk, Keys, Items, Slots;
      ghost var all := set k | k in names;
      NoKeys(storage);
      for i := 0 to |names|
        invariant Valid() && inUse == |Keys(storage)| && |storage| <= limit
        invariant |storage| >= old(|storage|) && (|storage| == old(|storage|) || 3 * |storage| <= 8 * inUse + 6)
        invariant Keys(storage) == set k | k in names[..i]
      {
        assert names[..i + 1] == names[..i] + [names[i]];
        assert Keys(storage) <= all;
        SubsetSize(Keys(storage), all);
        Watermark(h, storage);
        SpreadEnough(h, storage, all, names[i], limit);
        var ok := InsertEntry(names[i], []);
      }
      assert names[..|names|] == names;
    }
  }

  lemma NoKeys(t: seq<Entry>)
    requires |Slots(t)| == 0
    ensures Keys(t) == {}
  {
    assert forall i: nat :: Occupied(t, i) ==> i in Slots(t);
  }

  /** Keys that spread in all tables of up to limit slots do so in this one and, if there is one, in the next. */
  lemma SpreadEnough(h: Hashing, t: seq<Entry>, all: set<Str>, k: Str, limit: nat)
    requires TableOk(h, t) && Roomy(t) && Keys(t) <= all && k in all && |t| <= limit
    requires forall key :: key in all ==> Spreads(h, key, limit)
    ensures FindsRoom(h, t, k)
    ensures 2 * |t| <= limit ==> AllSpread(h, Keys(t), 2 * |t|) && SpreadsAt(h, k, 2 * |t|)
  {
    hide SpreadsAt, Keys, Slots;
    DoublePower(|t|);
    SpreadsOut(h, t, k);
  }

  /** A sound table t with the given keys whose slot 0 was overwritten by a long key. */
  ghost predicate Overwritten(h: Hashing, t: seq<Entry>, keys: set<Str>, k: Str, v: Str, after: seq<Entry>) {
    TableOk(h, t) && t != [] && Keys(t) == keys && after == t[0 := Entry(0, k, v)]
  }

  /** A long key is never stored, and inserting one loses the key in slot 0, if there is one. */
  lemma LongKeyLoses(h: Hashing, t: seq<Entry>, k: Str, v: Str)
    requires TableOk(h, t) && t != [] && |k| >= LONG
    ensures k !in Keys(t[0 := Entry(0, k, v)])
    ensures Keys(t[0 := Entry(0, k, v)]) == Keys(t) <==> !Occupied(t, 0)
  {
    var t' := t[0 := Entry(0, k, v)];
    assert forall i: nat :: Occupied(t', i) <==> i > 0 && Occupied(t, i);
    assert forall i: nat :: Occupied(t', i) ==> t'[i] == t[i];
    if Occupied(t, 0) {
      assert t[0].key !in Keys(t');
      assert t[0].key in Keys(t);
    } else {
      assert forall i: nat :: Occupied(t, i) ==> Occupied(t', i) && t'[i] == t[i];
      forall x | x in Keys(t)
        ensures x in Keys(t')
      {
        var i: nat :| i < |t| && Occupied(t, i) && t[i].key == x;
        assert Occupied(t', i);
      }
    }
  }

  lemma FreshMoved(h: Hashing, olds: seq<Entry>, t: seq<Entry>)
    requires PowerOfTwo(|t|) && |t| <= LARGEST && forall e :: e in t ==> e.keyHash == 0
    ensures Moved(h, olds, 0, t)
  {
    assert forall i: nat :: !Occupied(t, i) by {
      forall i: nat | i < |t| ensures t[i].keyHash == 0 { assert t[i] in t; }
    }
    assert olds[..0] == [];
  }

  lemma {:induction false} PowersApart(a: nat, b: nat)
    requires PowerOfTwo(b) && a <= b < 2 * a
    ensures PowerOfTwo(a) ==> a == b
    decreases b
  {
    if PowerOfTwo(a) && b > 1 && a > 1 { PowersApart(a / 2, b / 2); }
  }

  lemma InsertFinds(h: Hashing, t: seq<Entry>, key: Str)
    requires TableOk(h, t)
    requires |key| < LONG && key !in Keys(t) ==> FindsRoom(h, t, key)
    ensures t != [] && (|key| < LONG ==> Stops(h, t, key))
    ensures |key| < LONG ==> Find(h, t, key).res == if key in Keys(t) then 1 else 0
  {
    hide SpreadsAt, Chain;
    if |key| < LONG {
      if key in Keys(t) {
        var i: nat :| i < |t| && Occupied(t, i) && t[i].key == key;
        FindPresent(h, t, i);
      } else {
        FindAbsent(h, t, key);
      }
    }
  }
}
