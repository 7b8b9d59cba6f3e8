/** Trading between two characters: what changes hands, room checks, and when a trade is accepted. */
module Trades {
  import opened Bits
  import opened Options
  import opened Inventories
  import opened Draws

  const MODULUS: nat := 0x1_0000_0000

  datatype TradeInfo = TradeInfo(dbId: u32, accepted: bool, influence: u32, enhancements: seq<nat>,
      inspirations: seq<Cell>) {
    predicate EqualContent(o: TradeInfo) {
      influence == o.influence && enhancements == o.enhancements && inspirations == o.inspirations
    }
  }

  // ---- enhancements out and in ----

  function GoodsOf(es: seq<Enhancement>): (m: multiset<Goods>)
    ensures |m| == |es|
  {
    if es == [] then multiset{} else multiset{es[0].goods} + GoodsOf(es[1..])
  }

  datatype Taken = Taken(tray: Tray, items: seq<Enhancement>)

  /** Offered slots are emptied one after the other; an empty or unknown slot is passed over. */
  function Take(t: Tray, idxs: seq<nat>): (r: Taken)
    ensures |r.tray| == |t|
    decreases |idxs|
  {
    if idxs == [] then Taken(t, [])
    else
      var e := EnhancementAt(t, idxs[0]);
      if e.None? then Take(t, idxs[1..])
      else
        var rest := Take(Trashed(t, idxs[0]), idxs[1..]);
        Taken(rest.tray, [e.value] + rest.items)
  }

  function Give(t: Tray, es: seq<Enhancement>): (r: Tray)
    ensures |r| == |t|
    decreases |es|
  {
    if es == [] then t else Give(Added(t, es[0]), es[1..])
  }

  lemma {:induction false} TakeConserves(t: Tray, idxs: seq<nat>)
    ensures Carried(Take(t, idxs).tray) + GoodsOf(Take(t, idxs).items) == Carried(t)
    decreases |idxs|
  {
    hide Carried, Trashed;
    if idxs != [] {
      var e := EnhancementAt(t, idxs[0]);
      if e.None? {
        TakeConserves(t, idxs[1..]);
      } else {
        var t1 := Trashed(t, idxs[0]);
        TakeConserves(t1, idxs[1..]);
        TrashedCarries(t, idxs[0]);
        var rest := Take(t1, idxs[1..]);
        assert ([e.value] + rest.items)[1..] == rest.items;
        assert Carried(rest.tray) + (multiset{e.value.goods} + GoodsOf(rest.items))
            == Carried(t1) + multiset{e.value.goods};
      }
    }
  }

  lemma {:induction false} GiveConserves(t: Tray, es: seq<Enhancement>)
    ensures |es| <= FreeSlots(t) ==> Carried(Give(t, es)) == Carried(t) + GoodsOf(es)
    ensures |Carried(Give(t, es))| == |Carried(t)| + if |es| <= FreeSlots(t) then |es| else FreeSlots(t)
    decreases |es|
  {
    hide Carried, Added;
    if es != [] {
      AddedCarries(t, es[0]);
      GiveConserves(Added(t, es[0]), es[1..]);
    }
  }

  /** Distinct occupied slots are handed over in the order offered. */
  lemma {:induction false} TakeOffered(t: Tray, idxs: seq<nat>)
    requires forall i :: 0 <= i < |idxs| ==> EnhancementAt(t, idxs[i]).Some?
    requires forall i, j :: 0 <= i < j < |idxs| ==> idxs[i] != idxs[j]
    ensures |Take(t, idxs).items| == |idxs|
    ensures forall i :: 0 <= i < |idxs| ==> Some(Take(t, idxs).items[i]) == EnhancementAt(t, idxs[i])
    decreases |idxs|
  {
    if idxs != [] {
      var t1, rest := Trashed(t, idxs[0]), idxs[1..];
      forall i | 0 <= i < |rest|
        ensures EnhancementAt(t1, rest[i]) == EnhancementAt(t, rest[i]) && t1[rest[i]] == t[rest[i]]
      {
        assert rest[i] == idxs[i + 1];
      }
      TakeOffered(t1, rest);
    }
  }

  // ---- a finished trade ----

  datatype Carrier = Carrier(influence: u32, tray: Tray, grid: Grid, cols: nat, rows: nat) {
    predicate Valid() {
      InGrid(grid, cols, rows)
    }
  }

  /** Unsigned 32-bit arithmetic. */
  function Exchanged(own: u32, offered: u32, received: u32): u32 {
    (own - offered + received) % MODULUS
  }

  function Finish(a: Carrier, b: Carrier, oa: TradeInfo, ob: TradeInfo): (r: (Carrier, Carrier))
    requires a.Valid() && b.Valid()
  {
    var ea, eb := Take(a.tray, oa.enhancements), Take(b.tray, ob.enhancements);
    var ia, ib := Draw(a.grid, a.cols, a.rows, oa.inspirations), Draw(b.grid, b.cols, b.rows, ob.inspirations);
    (a.(influence := Exchanged(a.influence, oa.influence, ob.influence), tray := Give(ea.tray, eb.items),
        grid := Stow(ia.grid, a.cols, a.rows, ib.items)),
     b.(influence := Exchanged(b.influence, ob.influence, oa.influence), tray := Give(eb.tray, ea.items),
        grid := Stow(ib.grid, b.cols, b.rows, ia.items)))
  }

  /** No add finds a full tray. */
  predicate TraysFit(a: Carrier, b: Carrier, oa: TradeInfo, ob: TradeInfo) {
    var ea, eb := Take(a.tray, oa.enhancements), Take(b.tray, ob.enhancements);
    |eb.items| <= FreeSlots(ea.tray) && |ea.items| <= FreeSlots(eb.tray)
  }

  predicate GridsFit(a: Carrier, b: Carrier, oa: TradeInfo, ob: TradeInfo)
    requires a.Valid() && b.Valid()
  {
    var ia, ib := Draw(a.grid, a.cols, a.rows, oa.inspirations), Draw(b.grid, b.cols, b.rows, ob.inspirations);
    |ib.items| <= FreeCells(ia.grid, a.cols, a.rows) && |ia.items| <= FreeCells(ib.grid, b.cols, b.rows)
  }

  /** The two characters together keep their enhancements exactly if every one of them finds a free slot. */
  lemma EnhancementsConserved(a: Carrier, b: Carrier, oa: TradeInfo, ob: TradeInfo)
    requires a.Valid() && b.Valid()
    ensures var (a', b') := Finish(a, b, oa, ob);
            Carried(a'.tray) + Carried(b'.tray) == Carried(a.tray) + Carried(b.tray) <==> TraysFit(a, b, oa, ob)
  {
    hide Take, Give, Draw, Stow, Carried, GoodsOf;
    var ea, eb := Take(a.tray, oa.enhancements), Take(b.tray, ob.enhancements);
    TakeConserves(a.tray, oa.enhancements);
    TakeConserves(b.tray, ob.enhancements);
    GiveConserves(ea.tray, eb.items);
    GiveConserves(eb.tray, ea.items);
    var (a', b') := Finish(a, b, oa, ob);
    Swapped(Carried(ea.tray), Carried(eb.tray), GoodsOf(ea.items), GoodsOf(eb.items));
    SameSize(Carried(a'.tray) + Carried(b'.tray), Carried(a.tray) + Carried(b.tray));
  }

  lemma Swapped<T>(x: multiset<T>, y: multiset<T>, p: multiset<T>, q: multiset<T>)
    ensures (x + q) + (y + p) == (x + p) + (y + q)
  {
  }

  lemma SameSize<T>(x: multiset<T>, y: multiset<T>)
    ensures x == y ==> |x| == |y|
  {
  }

  lemma InspirationsConserved(a: Carrier, b: Carrier, oa: TradeInfo, ob: TradeInfo)
    requires a.Valid() && b.Valid()
    ensures var (a', b') := Finish(a, b, oa, ob);
            Stocked(a'.grid, a.cols, a.rows) + Stocked(b'.grid, b.cols, b.rows)
                == Stocked(a.grid, a.cols, a.rows) + Stocked(b.grid, b.cols, b.rows)
            <==> GridsFit(a, b, oa, ob)
  {
    hide Take, Give, Draw, Stow, Stocked, FreeCells, InspiredOf;
    var ia, ib := Draw(a.grid, a.cols, a.rows, oa.inspirations), Draw(b.grid, b.cols, b.rows, ob.inspirations);
    DrawConserves(a.grid, a.cols, a.rows, oa.inspirations);
    DrawConserves(b.grid, b.cols, b.rows, ob.inspirations);
    StowConserves(ia.grid, a.cols, a.rows, ib.items);
    StowConserves(ib.grid, b.cols, b.rows, ia.items);
    var (a', b') := Finish(a, b, oa, ob);
    Swapped(Stocked(ia.grid, a.cols, a.rows), Stocked(ib.grid, b.cols, b.rows), InspiredOf(ia.items),
        InspiredOf(ib.items));
    SameSize(Stocked(a'.grid, a.cols, a.rows) + Stocked(b'.grid, b.cols, b.rows),
        Stocked(a.grid, a.cols, a.rows) + Stocked(b.grid, b.cols, b.rows));
  }

  /** A trade finished with oneself: what is taken out twice is put in again. */
  function FinishSelf(c: Carrier, o: TradeInfo): Carrier
    requires c.Valid()
  {
    var e1 := Take(c.tray, o.enhancements);
    var e2 := Take(e1.tray, o.enhancements);
    var i1 := Draw(c.grid, c.cols, c.rows, o.inspirations);
    var i2 := Draw(i1.grid, c.cols, c.rows, o.inspirations);
    c.(influence := Exchanged(c.influence, o.influence, o.influence), tray := Give(Give(e2.tray, e2.items), e1.items),
       grid := Stow(Stow(i2.grid, c.cols, c.rows, i2.items), c.cols, c.rows, i1.items))
  }

  /** It changes nothing but the places of things. */
  lemma SelfConserved(c: Carrier, o: TradeInfo)
    requires c.Valid()
    ensures var c' := FinishSelf(c, o);
            && c'.Valid() && c'.influence == c.influence && Carried(c'.tray) == Carried(c.tray)
            && c'.cols == c.cols && c'.rows == c.rows
            && Stocked(c'.grid, c.cols, c.rows) == Stocked(c.grid, c.cols, c.rows)
  {
    hide Take, Give, Draw, Stow, Carried, Stocked, FreeCells, GoodsOf, InspiredOf;
    SelfTray(c.tray, o.enhancements);
    SelfGrid(c.grid, c.cols, c.rows, o.inspirations);
  }

  lemma SelfTray(t: Tray, idxs: seq<nat>)
    ensures var e1 := Take(t, idxs);
            var e2 := Take(e1.tray, idxs);
            Carried(Give(Give(e2.tray, e2.items), e1.items)) == Carried(t)
  {
    hide Take, Give, Carried, GoodsOf;
    var e1 := Take(t, idxs);
    var e2 := Take(e1.tray, idxs);
    TakeConserves(t, idxs);
    TakeConserves(e1.tray, idxs);
    SameSize(Carried(e1.tray) + GoodsOf(e1.items), Carried(t));
    SameSize(Carried(e2.tray) + GoodsOf(e2.items), Carried(e1.tray));
    GiveConserves(e2.tray, e2.items);
    GiveConserves(Give(e2.tray, e2.items), e1.items);
  }

  lemma SelfGrid(g: Grid, cols: nat, rows: nat, cells: seq<Cell>)
    requires InGrid(g, cols, rows)
    ensures var i1 := Draw(g, cols, rows, cells);
            var i2 := Draw(i1.grid, cols, rows, cells);
            Stocked(Stow(Stow(i2.grid, cols, rows, i2.items), cols, rows, i1.items), cols, rows)
                == Stocked(g, cols, rows)
  {
    hide Draw, Stow, Stocked, FreeCells, InspiredOf;
    var i1 := Draw(g, cols, rows, cells);
    var i2 := Draw(i1.grid, cols, rows, cells);
    var g3 := Stow(i2.grid, cols, rows, i2.items);
    DrawConserves(g, cols, rows, cells);
    DrawConserves(i1.grid, cols, rows, cells);
    SameSize(Stocked(i1.grid, cols, rows) + InspiredOf(i1.items), Stocked(g, cols, rows));
    SameSize(Stocked(i2.grid, cols, rows) + InspiredOf(i2.items), Stocked(i1.grid, cols, rows));
    CellsCounted(g, cols, rows);
    CellsCounted(i2.grid, cols, rows);
    CellsCounted(g3, cols, rows);
    StowConserves(i2.grid, cols, rows, i2.items);
    StowConserves(g3, cols, rows, i1.items);
  }

  // ---- influence ----

  /** A side's influence changes by what it receives less what it offers, modulo 2^32; so the total does not change. */
  lemma InfluenceModulo(a: Carrier, b: Carrier, oa: TradeInfo, ob: TradeInfo)
    requires a.Valid() && b.Valid()
    ensures var (a', b') := Finish(a, b, oa, ob);
            && (a'.influence - (a.influence - oa.influence + ob.influence)) % MODULUS == 0
            && (b'.influence - (b.influence - ob.influence + oa.influence)) % MODULUS == 0
            && (a'.influence + b'.influence) % MODULUS == (a.influence + b.influence) % MODULUS
  {
    hide Take, Give, Draw, Stow;
    SumModulo(a.influence - oa.influence + ob.influence, b.influence - ob.influence + oa.influence);
    Reduced(a.influence - oa.influence + ob.influence);
    Reduced(b.influence - ob.influence + oa.influence);
  }

  lemma Reduced(x: int)
    ensures (x % MODULUS - x) % MODULUS == 0
  {
    var q := x / MODULUS;
    assert x % MODULUS - x == MODULUS * -q;
  }

  lemma SumModulo(x: int, y: int)
    ensures (x % MODULUS + y % MODULUS) % MODULUS == (x + y) % MODULUS
  {
    var carry := x / MODULUS + y / MODULUS;
    assert x + y == x % MODULUS + y % MODULUS + MODULUS * carry;
  }

  /** The overflow check of one side. */
  predicate RoomForInfluence(own: u32, offered: u32, received: u32) {
    Exchanged(own, offered, received) >= received
  }

  /** When both checks pass, nothing wraps around exactly if both sides own what they offer. */
  lemma InfluenceExact(a: u32, b: u32, offerA: u32, offerB: u32)
    requires RoomForInfluence(a, offerA, offerB) && RoomForInfluence(b, offerB, offerA)
    ensures Exchanged(a, offerA, offerB) + Exchanged(b, offerB, offerA) == a + b <==> offerA <= a && offerB <= b
    ensures offerA <= a && offerB <= b ==> Exchanged(a, offerA, offerB) == a - offerA + offerB
  {
  }

  // ---- room ----

  datatype Message =
    | Success
    | GenericFailure
    | NotEnoughRoomInfluence
    | NotEnoughRoomEnhancements
    | NotEnoughRoomInspirations

  predicate RoomForEnhancements(me: Carrier, mine: TradeInfo, theirs: TradeInfo) {
    |Carried(me.tray)| - |mine.enhancements| + |theirs.enhancements| <= |me.tray|
  }

  predicate RoomForInspirations(me: Carrier, mine: TradeInfo, theirs: TradeInfo)
    requires me.Valid()
  {
    |Stocked(me.grid, me.cols, me.rows)| - |mine.inspirations| + |theirs.inspirations| <= me.cols * me.rows
  }

  function HasRoom(me: Carrier, mine: TradeInfo, theirs: TradeInfo): Message
    requires me.Valid()
  {
    if !RoomForInfluence(me.influence, mine.influence, theirs.influence) then NotEnoughRoomInfluence
    else if !RoomForEnhancements(me, mine, theirs) then NotEnoughRoomEnhancements
    else if !RoomForInspirations(me, mine, theirs) then NotEnoughRoomInspirations
    else Success
  }

  /** Distinct occupied slots and cells. */
  predicate Offers(me: Carrier, o: TradeInfo)
    requires me.Valid()
  {
    && (forall i :: 0 <= i < |o.enhancements| ==> EnhancementAt(me.tray, o.enhancements[i]).Some?)
    && (forall i, j :: 0 <= i < j < |o.enhancements| ==> o.enhancements[i] != o.enhancements[j])
    && DistinctHeld(me.grid, me.cols, me.rows, o.inspirations)
  }

  /** How many inspirations an offer really takes. */
  function TakenCount(me: Carrier, o: TradeInfo): nat {
    |TakenCells(Sources(me.grid, me.cols, me.rows, o.inspirations))|
  }

  /** What a side takes out for such an offer, and how many slots and cells it leaves. */
  lemma OfferTaken(me: Carrier, o: TradeInfo)
    requires me.Valid() && Offers(me, o)
    ensures var e := Take(me.tray, o.enhancements);
            && |e.items| == |o.enhancements| && |Carried(e.tray)| == |Carried(me.tray)| - |o.enhancements|
            && forall i :: 0 <= i < |o.enhancements| ==> Some(e.items[i]) == EnhancementAt(me.tray, o.enhancements[i])
    ensures var d := Draw(me.grid, me.cols, me.rows, o.inspirations);
            && |d.items| == TakenCount(me, o)
            && |Stocked(d.grid, me.cols, me.rows)| == |Stocked(me.grid, me.cols, me.rows)| - TakenCount(me, o)
            && (FrontLast(o.inspirations) ==> TakenCount(me, o) == |o.inspirations|)
  {
    hide Carried, Stocked, GoodsOf, InspiredOf, Sources, TakenCells;
    var e, d := Take(me.tray, o.enhancements), Draw(me.grid, me.cols, me.rows, o.inspirations);
    TakeOffered(me.tray, o.enhancements);
    TakeConserves(me.tray, o.enhancements);
    SameSize(Carried(e.tray) + GoodsOf(e.items), Carried(me.tray));
    DrawTakes(me.grid, me.cols, me.rows, o.inspirations);
    DrawConserves(me.grid, me.cols, me.rows, o.inspirations);
    SameSize(Stocked(d.grid, me.cols, me.rows) + InspiredOf(d.items), Stocked(me.grid, me.cols, me.rows));
    if FrontLast(o.inspirations) {
      InTurn(me.grid, me.cols, me.rows, o.inspirations);
      TakenAll(Sources(me.grid, me.cols, me.rows, o.inspirations));
    }
  }

  /** Both grids hold what is left in them and what is really taken out of the other. */
  predicate CellsSuffice(a: Carrier, b: Carrier, oa: TradeInfo, ob: TradeInfo)
    requires a.Valid() && b.Valid()
  {
    && |Stocked(a.grid, a.cols, a.rows)| - TakenCount(a, oa) + TakenCount(b, ob) <= a.cols * a.rows
    && |Stocked(b.grid, b.cols, b.rows)| - TakenCount(b, ob) + TakenCount(a, oa) <= b.cols * b.rows
  }

  /** What both room checks guarantee: every enhancement fits; the inspirations fit exactly if the cells suffice. */
  lemma RoomSuffices(a: Carrier, b: Carrier, oa: TradeInfo, ob: TradeInfo)
    requires a.Valid() && b.Valid() && Offers(a, oa) && Offers(b, ob)
    requires HasRoom(a, oa, ob) == Success && HasRoom(b, ob, oa) == Success
    ensures TraysFit(a, b, oa, ob) && (GridsFit(a, b, oa, ob) <==> CellsSuffice(a, b, oa, ob))
    ensures FrontLast(oa.inspirations) && FrontLast(ob.inspirations) ==> CellsSuffice(a, b, oa, ob)
  {
    hide Take, Give, Draw, Stow, Carried, Stocked, FreeCells, GoodsOf, InspiredOf, Offers, TakenCount;
    OfferTaken(a, oa);
    OfferTaken(b, ob);
    CellsCounted(Draw(a.grid, a.cols, a.rows, oa.inspirations).grid, a.cols, a.rows);
    CellsCounted(Draw(b.grid, b.cols, b.rows, ob.inspirations).grid, b.cols, b.rows);
  }

  /** Each side gives away its enhancements for the other's. */
  lemma EnhancementsExchanged(a: Carrier, b: Carrier, oa: TradeInfo, ob: TradeInfo)
    requires a.Valid() && b.Valid() && TraysFit(a, b, oa, ob)
    ensures var (a', b') := Finish(a, b, oa, ob);
            var ea, eb := Take(a.tray, oa.enhancements).items, Take(b.tray, ob.enhancements).items;
            && Carried(a'.tray) + GoodsOf(ea) == Carried(a.tray) + GoodsOf(eb)
            && Carried(b'.tray) + GoodsOf(eb) == Carried(b.tray) + GoodsOf(ea)
  {
    hide Take, Give, Draw, Stow, Carried, GoodsOf;
    var ea, eb := Take(a.tray, oa.enhancements), Take(b.tray, ob.enhancements);
    TakeConserves(a.tray, oa.enhancements);
    TakeConserves(b.tray, ob.enhancements);
    GiveConserves(ea.tray, eb.items);
    GiveConserves(eb.tray, ea.items);
    Regroup(Carried(ea.tray), GoodsOf(eb.items), GoodsOf(ea.items));
    Regroup(Carried(eb.tray), GoodsOf(ea.items), GoodsOf(eb.items));
  }

  /** Each side gives away the inspirations it really offers for those of the other. */
  lemma InspirationsExchanged(a: Carrier, b: Carrier, oa: TradeInfo, ob: TradeInfo)
    requires a.Valid() && b.Valid() && GridsFit(a, b, oa, ob)
    ensures var (a', b') := Finish(a, b, oa, ob);
            var ia := Draw(a.grid, a.cols, a.rows, oa.inspirations).items;
            var ib := Draw(b.grid, b.cols, b.rows, ob.inspirations).items;
            && Stocked(a'.grid, a.cols, a.rows) + InspiredOf(ia) == Stocked(a.grid, a.cols, a.rows) + InspiredOf(ib)
            && Stocked(b'.grid, b.cols, b.rows) + InspiredOf(ib) == Stocked(b.grid, b.cols, b.rows) + InspiredOf(ia)
  {
    hide Take, Give, Draw, Stow, Stocked, FreeCells, InspiredOf;
    var ia := Draw(a.grid, a.cols, a.rows, oa.inspirations);
    var ib := Draw(b.grid, b.cols, b.rows, ob.inspirations);
    DrawConserves(a.grid, a.cols, a.rows, oa.inspirations);
    DrawConserves(b.grid, b.cols, b.rows, ob.inspirations);
    StowConserves(ia.grid, a.cols, a.rows, ib.items);
    StowConserves(ib.grid, b.cols, b.rows, ia.items);
    Regroup(Stocked(ia.grid, a.cols, a.rows), InspiredOf(ib.items), InspiredOf(ia.items));
    Regroup(Stocked(ib.grid, b.cols, b.rows), InspiredOf(ia.items), InspiredOf(ib.items));
  }

  /**
   * Two full columns of two cells, one offered from front to back and one from back to front: both room checks pass,
   * but the second draw of the first side finds its cell empty, and an inspiration of the other side is lost.
   */
  lemma LosingOffer(x: Inspiration, y: Inspiration, v: Inspiration, w: Inspiration)
    requires x.has && y.has && v.has && w.has
    ensures var a, b := Carrier(0, [], [[x, y]], 1, 2), Carrier(0, [], [[v, w]], 1, 2);
            var oa := TradeInfo(0, true, 0, [], [Cell(0, 0), Cell(0, 1)]);
            var ob := TradeInfo(0, true, 0, [], [Cell(0, 1), Cell(0, 0)]);
            && a.Valid() && b.Valid() && Offers(a, oa) && Offers(b, ob)
            && HasRoom(a, oa, ob) == Success && HasRoom(b, ob, oa) == Success
            && TakenCount(a, oa) == 1 && TakenCount(b, ob) == 2 && !GridsFit(a, b, oa, ob)
  {
    var a, b := Carrier(0, [], [[x, y]], 1, 2), Carrier(0, [], [[v, w]], 1, 2);
    var oa := TradeInfo(0, true, 0, [], [Cell(0, 0), Cell(0, 1)]);
    var ob := TradeInfo(0, true, 0, [], [Cell(0, 1), Cell(0, 0)]);
    hide Stocked, DistinctHeld, Sources, TakenCells, Carried, GridsFit;
    FullPair(x, y);
    FullPair(v, w);
    NothingCarried();
    FrontFirst([[x, y]]);
    InTurn(b.grid, 1, 2, ob.inspirations);
    TakenAll(Sources(b.grid, 1, 2, ob.inspirations));
    RoomSuffices(a, b, oa, ob);
  }

  lemma NothingCarried()
    ensures |Carried([])| == 0
  {
  }

  lemma FullPair(x: Inspiration, y: Inspiration)
    requires x.has && y.has
    ensures InGrid([[x, y]], 1, 2) && |Stocked([[x, y]], 1, 2)| == 2
    ensures DistinctHeld([[x, y]], 1, 2, [Cell(0, 0), Cell(0, 1)])
            && DistinctHeld([[x, y]], 1, 2, [Cell(0, 1), Cell(0, 0)])
  {
    hide HeldIn;
    var s := [x, y];
    assert [s][0][..2] == s && Stocked([s], 0, 2) == multiset{};
    HeldCount(ColumnContents(s));
  }

  /** The second offer of a column of two finds nothing once the first is taken. */
  lemma FrontFirst(g: Grid)
    requires |g| == 1 && |g[0]| == 2 && g[0][0].has && g[0][1].has
    ensures |TakenCells(Sources(g, 1, 2, [Cell(0, 0), Cell(0, 1)]))| == 1
  {
    var cells, lay := [Cell(0, 0), Cell(0, 1)], Untouched(1, 2);
    var lay' := Without(lay, cells[0]);
    assert cells[1..] == [Cell(0, 1)] && [Cell(0, 1)][1..] == [];
    assert |lay'[0]| == 1;
    assert Trace(g, lay', [Cell(0, 1)]) == [None];
    assert Trace(g, lay, cells) == [Some(Cell(0, 0)), None];
    assert TakenCells([None]) == [] && [Some(Cell(0, 0)), None][1..] == [None];
  }

  lemma Regroup<T>(x: multiset<T>, p: multiset<T>, q: multiset<T>)
    ensures (x + p) + q == (x + q) + p
  {
  }

  // ---- the acceptance state machine ----

  datatype TradeState = TradeState(a: TradeInfo, b: TradeInfo) {
    function Side(isA: bool): TradeInfo { if isA then a else b }
    predicate SameTerms(o: TradeState) { a.EqualContent(o.a) && b.EqualContent(o.b) }
    predicate IsAccepted() { a.accepted && b.accepted }
  }

  /**
   * An update by one side: changed content clears its acceptance and that of the member it is addressed to, which need
   * not be the other one; a lack of room clears its own.
   */
  function Update(t: TradeState, byA: bool, toOther: bool, info: TradeInfo, me: Carrier): (r: (TradeState, Message))
    requires me.Valid()
  {
    var modified := !t.Side(byA).EqualContent(info);
    var mine := if modified then info.(accepted := false) else info;
    var theirs := if modified && toOther then t.Side(!byA).(accepted := false) else t.Side(!byA);
    var result := HasRoom(me, mine, theirs);
    var t' := if byA then TradeState(mine, theirs) else TradeState(theirs, mine);
    if mine.accepted && result != Success
    then (if byA then t'.(a := mine.(accepted := false)) else t'.(b := mine.(accepted := false)), result)
    else (t', Success)
  }

  /** One update: who sent it and to whom, what it says, and what its sender carried at that moment. */
  datatype Act = Act(byA: bool, toOther: bool, info: TradeInfo, me: Carrier)

  predicate CanAct(acts: seq<Act>) {
    forall a :: a in acts ==> a.me.Valid()
  }

  function Run(t: TradeState, acts: seq<Act>): TradeState
    requires CanAct(acts)
    decreases |acts|
  {
    if acts == [] then t
    else
      var n := |acts| - 1;
      Update(Run(t, acts[..n]), acts[n].byA, acts[n].toOther, acts[n].info, acts[n].me).0
  }

  /** Update k was an acceptance by that side with room for it, and the terms have been the present ones ever since. */
  ghost predicate AgreedAt(t: TradeState, acts: seq<Act>, isA: bool, k: nat)
    requires CanAct(acts) && k < |acts|
  {
    && acts[k].byA == isA && acts[k].info.accepted
    && HasRoom(acts[k].me, Run(t, acts).Side(isA), Run(t, acts).Side(!isA)) == Success
    && acts[k].info.EqualContent(Run(t, acts).Side(isA))
    && forall m :: k <= m <= |acts| ==> Run(t, acts[..m]).SameTerms(Run(t, acts))
  }

  /** Every update names the other member. */
  predicate WellAddressed(acts: seq<Act>) {
    forall a :: a in acts ==> a.toOther
  }

  /**
   * After an update of the other member an acceptance stands only if the terms did not change; the sender's needs its
   * word and room.
   */
  lemma StillAccepted(t: TradeState, byA: bool, info: TradeInfo, me: Carrier, isA: bool)
    requires me.Valid() && Update(t, byA, true, info, me).0.Side(isA).accepted
    ensures var t' := Update(t, byA, true, info, me).0;
            && t'.SameTerms(t) && t.SameTerms(t')
            && if isA == byA
               then info.accepted && info.EqualContent(t'.Side(isA))
                   && HasRoom(me, t'.Side(isA), t'.Side(!isA)) == Success
               else t.Side(isA).accepted
  {
    hide HasRoom;
  }

  lemma RoomByTerms(me: Carrier, m: TradeInfo, o: TradeInfo, m': TradeInfo, o': TradeInfo)
    requires me.Valid() && m.EqualContent(m') && o.EqualContent(o')
    ensures HasRoom(me, m, o) == HasRoom(me, m', o')
  {
  }

  /** An acceptance of earlier on still stands after an update that keeps the terms. */
  lemma AgreedEarlier(t: TradeState, acts: seq<Act>, isA: bool, k: nat)
    requires CanAct(acts) && acts != [] && k < |acts| - 1
    requires AgreedAt(t, acts[..|acts| - 1], isA, k) && Run(t, acts[..|acts| - 1]).SameTerms(Run(t, acts))
    ensures AgreedAt(t, acts, isA, k)
  {
    hide HasRoom, Run;
    var n := |acts| - 1;
    var front, now := acts[..n], Run(t, acts);
    assert acts[..|acts|] == acts;
    forall m | k <= m <= |acts|
      ensures Run(t, acts[..m]).SameTerms(now)
    {
      if m <= n { assert acts[..m] == front[..m]; }
    }
    RoomByTerms(acts[k].me, Run(t, front).Side(isA), Run(t, front).Side(!isA), now.Side(isA), now.Side(!isA));
  }

  /** Whoever is marked accepted has accepted exactly the pair of offers now recorded, in its latest update. */
  lemma {:induction false} Agreed(t: TradeState, acts: seq<Act>, isA: bool) returns (k: nat)
    requires CanAct(acts) && WellAddressed(acts) && !t.a.accepted && !t.b.accepted && Run(t, acts).Side(isA).accepted
    ensures k < |acts| && AgreedAt(t, acts, isA, k) && forall m :: k < m < |acts| ==> acts[m].byA != isA
    decreases |acts|
  {
    hide HasRoom, Update, AgreedAt;
    var n := |acts| - 1;
    var front, last := acts[..n], acts[n];
    StillAccepted(Run(t, front), last.byA, last.info, last.me, isA);
    if last.byA == isA {
      k := n;
      assert acts[..|acts|] == acts;
      AgreedNow(t, acts, isA);
    } else {
      k := Agreed(t, front, isA);
      AgreedEarlier(t, acts, isA, k);
    }
  }

  lemma AgreedNow(t: TradeState, acts: seq<Act>, isA: bool)
    requires CanAct(acts) && acts != []
    requires var n, now := |acts| - 1, Run(t, acts);
             && acts[n].byA == isA && acts[n].info.accepted && acts[n].info.EqualContent(now.Side(isA))
             && HasRoom(acts[n].me, now.Side(isA), now.Side(!isA)) == Success && Run(t, acts[..n]).SameTerms(now)
    ensures AgreedAt(t, acts, isA, |acts| - 1)
  {
    hide HasRoom, Run;
    assert acts[..|acts|] == acts;
  }

  /** A trade counts as accepted only when both sides agreed to the same current terms. */
  lemma BothAgreed(t: TradeState, acts: seq<Act>) returns (j: nat, k: nat)
    requires CanAct(acts) && WellAddressed(acts) && !t.a.accepted && !t.b.accepted && Run(t, acts).IsAccepted()
    ensures j < |acts| && k < |acts| && AgreedAt(t, acts, true, j) && AgreedAt(t, acts, false, k)
  {
    j := Agreed(t, acts, true);
    k := Agreed(t, acts, false);
  }

  /**
   * From acceptance to the exchange: if both sides still carry what they carried in the latest update of each, and have
   * what they offer, all enhancements change hands, and inspirations and influence exactly under the conditions below.
   */
  lemma AcceptedConserves(t: TradeState, acts: seq<Act>, a: Carrier, b: Carrier) returns (j: nat, k: nat)
    requires CanAct(acts) && WellAddressed(acts) && !t.a.accepted && !t.b.accepted && Run(t, acts).IsAccepted()
    requires a.Valid() && b.Valid() && Offers(a, Run(t, acts).a) && Offers(b, Run(t, acts).b)
    ensures j < |acts| && acts[j].byA && (forall m :: j < m < |acts| ==> !acts[m].byA)
    ensures k < |acts| && !acts[k].byA && (forall m :: k < m < |acts| ==> acts[m].byA)
    ensures acts[j].me == a && acts[k].me == b ==> Exchanges(a, b, Run(t, acts).a, Run(t, acts).b)
  {
    hide Run, Offers, Finish, HasRoom, Exchanges;
    j := Agreed(t, acts, true);
    k := Agreed(t, acts, false);
    var now := Run(t, acts);
    if acts[j].me == a && acts[k].me == b {
      AcceptedRoom(a, b, now.a, now.b);
    }
  }

  /**
   * All enhancements change hands.  So do the inspirations taken, and none is lost, exactly if the cells suffice, as
   * they do if each column is offered from back to front.  Influence adds up exactly if both own what they offer.
   */
  predicate Exchanges(a: Carrier, b: Carrier, oa: TradeInfo, ob: TradeInfo)
    requires a.Valid() && b.Valid()
  {
    var (a', b') := Finish(a, b, oa, ob);
    var ea, eb := Take(a.tray, oa.enhancements).items, Take(b.tray, ob.enhancements).items;
    var ia := Draw(a.grid, a.cols, a.rows, oa.inspirations).items;
    var ib := Draw(b.grid, b.cols, b.rows, ob.inspirations).items;
    var fits := CellsSuffice(a, b, oa, ob);
    && a'.Valid() && b'.Valid() && a'.cols == a.cols && a'.rows == a.rows && b'.cols == b.cols && b'.rows == b.rows
    && |ea| == |oa.enhancements| && |eb| == |ob.enhancements|
    && Carried(a'.tray) + GoodsOf(ea) == Carried(a.tray) + GoodsOf(eb)
    && Carried(b'.tray) + GoodsOf(eb) == Carried(b.tray) + GoodsOf(ea)
    && |ia| == TakenCount(a, oa) && |ib| == TakenCount(b, ob)
    && (fits ==>
      && Stocked(a'.grid, a.cols, a.rows) + InspiredOf(ia) == Stocked(a.grid, a.cols, a.rows) + InspiredOf(ib)
      && Stocked(b'.grid, b.cols, b.rows) + InspiredOf(ib) == Stocked(b.grid, b.cols, b.rows) + InspiredOf(ia))
    && (fits <==>
        Stocked(a'.grid, a.cols, a.rows) + Stocked(b'.grid, b.cols, b.rows)
        == Stocked(a.grid, a.cols, a.rows) + Stocked(b.grid, b.cols, b.rows))
    && (FrontLast(oa.inspirations) && FrontLast(ob.inspirations) ==>
         fits && |ia| == |oa.inspirations| && |ib| == |ob.inspirations|)
    && (a'.influence + b'.influence == a.influence + b.influence
       <==> oa.influence <= a.influence && ob.influence <= b.influence)
    && (oa.influence <= a.influence && ob.influence <= b.influence ==>
        a'.influence == a.influence - oa.influence + ob.influence
        && b'.influence == b.influence - ob.influence + oa.influence)
  }

  lemma AcceptedRoom(a: Carrier, b: Carrier, oa: TradeInfo, ob: TradeInfo)
    requires a.Valid() && b.Valid() && Offers(a, oa) && Offers(b, ob)
    requires HasRoom(a, oa, ob) == Success && HasRoom(b, ob, oa) == Success
    ensures Exchanges(a, b, oa, ob)
  {
    hide Take, Give, Draw, Stow, Carried, Stocked, GoodsOf, InspiredOf, Offers, Exchanged, TakenCount,
         TraysFit, GridsFit, CellsSuffice;
    OfferTaken(a, oa);
    OfferTaken(b, ob);
    RoomSuffices(a, b, oa, ob);
    EnhancementsExchanged(a, b, oa, ob);
    InspirationsConserved(a, b, oa, ob);
    if CellsSuffice(a, b, oa, ob) { InspirationsExchanged(a, b, oa, ob); }
    InfluenceExact(a.influence, b.influence, oa.influence, ob.influence);
    InfluenceExact(b.influence, a.influence, ob.influence, oa.influence);
  }

  /**
   * A change of content clears both acceptances exactly if it is addressed to the other member or finds it not
   * accepted.
   */
  lemma ChangeClears(t: TradeState, byA: bool, toOther: bool, info: TradeInfo, me: Carrier)
    requires me.Valid() && !t.Side(byA).EqualContent(info)
    ensures var t' := Update(t, byA, toOther, info, me).0;
            && t'.Side(byA).EqualContent(info) && !t'.Side(byA).accepted
            && (!t'.a.accepted && !t'.b.accepted <==> toOther || !t.Side(!byA).accepted)
  {
  }

  /** Addressed to itself, a side changes its offer under the acceptance of the other, which never saw these terms. */
  lemma SelfAddressed(me: Carrier, mine: TradeInfo, theirs: TradeInfo, changed: TradeInfo)
    requires me.Valid() && !mine.EqualContent(changed) && changed.accepted && theirs.accepted
    requires HasRoom(me, changed, theirs) == Success
    ensures var t := TradeState(mine, theirs);
            var acts := [Act(true, false, changed, me), Act(true, false, changed, me)];
            Run(t, acts).IsAccepted() && !Run(t, acts).SameTerms(t) && Run(t, acts).b == theirs
  {
    hide HasRoom;
    var t := TradeState(mine, theirs);
    var act := Act(true, false, changed, me);
    assert [act, act][..1] == [act] && [act][..0] == [];
    assert Run(t, []) == t;
    var t1 := TradeState(changed.(accepted := false), theirs);
    RoomByTerms(me, changed, theirs, changed.(accepted := false), theirs);
    assert Run(t, [act]) == t1;
  }

  // ---- the objects ----

  datatype TradeMember = TradeMember(dbId: u32, info: TradeInfo)

  const EMPTY_INFO := TradeInfo(0, false, 0, [], [])

  class Trade {
    var memberA: TradeMember
    var memberB: TradeMember
    var inviteAccepted: bool

    constructor (a: Entity, b: Entity)
      ensures memberA == TradeMember(a.dbId, EMPTY_INFO) && memberB == TradeMember(b.dbId, EMPTY_INFO)
              && !inviteAccepted
    {
      memberA, memberB := TradeMember(a.dbId, EMPTY_INFO), TradeMember(b.dbId, EMPTY_INFO);
      inviteAccepted := false;
    }

    ghost function State(): TradeState
      reads this
    {
      TradeState(memberA.info, memberB.info)
    }

    predicate IsA(ent: Entity)
      reads this
    {
      memberA.dbId == ent.dbId
    }

    function MemberInfo(ent: Entity): TradeInfo
      reads this
    {
      if IsA(ent) then memberA.info else memberB.info
    }

    function OtherInfo(ent: Entity): TradeInfo
      reads this
    {
      if IsA(ent) then memberB.info else memberA.info
    }

    method SetInfo(ent: Entity, info: TradeInfo)
      modifies this`memberA, this`memberB
      ensures State() == if IsA(ent) then old(State()).(a := info) else old(State()).(b := info)
      ensures memberA.dbId == old(memberA.dbId) && memberB.dbId == old(memberB.dbId)
    {
      if IsA(ent) {
        memberA := memberA.(info := info);
      } else {
        memberB := memberB.(info := info);
      }
    }

    method IsAccepted() returns (b: bool)
      ensures b == State().IsAccepted()
    {
      b := memberA.info.accepted && memberB.info.accepted;
    }
  }

  class Entity {
    const dbId: u32
    const character: CharacterData
    var trade: Trade?

    constructor (id: u32, c: CharacterData)
      ensures dbId == id && character == c && trade == null
    {
      dbId, character := id, c;
      trade := null;
    }

    ghost function Carries(): Carrier
      reads this, character, character.enhancements
    {
      Carrier(character.influence, character.Tray(), character.inspirations, character.maxCols, character.maxRows)
    }
  }

  /** The two sides of one trade, which are different characters with objects of their own. */
  ghost predicate Partners(src: Entity, tgt: Entity, trade: Trade)
    reads trade, src.character, tgt.character
  {
    && trade.memberA.dbId != trade.memberB.dbId
    && {src.dbId, tgt.dbId} == {trade.memberA.dbId, trade.memberB.dbId} && src.dbId != tgt.dbId
    && src.character != tgt.character && src.character.enhancements != tgt.character.enhancements
    && src.character.Valid() && tgt.character.Valid()
  }

  method HasRoomForTrade(src: Entity, trade: Trade) returns (m: Message)
    requires src.character.Valid()
    ensures m == HasRoom(src.Carries(), trade.MemberInfo(src), trade.OtherInfo(src))
  {
    hide Carried, Stocked;
    var mine, theirs := trade.MemberInfo(src), trade.OtherInfo(src);
    var inf := Exchanged(src.character.influence, mine.influence, theirs.influence);
    if inf < theirs.influence {
      return NotEnoughRoomInfluence;
    }
    var numEnh := src.character.NumberEnhancements();
    if numEnh - |mine.enhancements| + |theirs.enhancements| > src.character.enhancements.Length {
      return NotEnoughRoomEnhancements;
    }
    var numInsp := src.character.NumberInspirations();
    if numInsp - |mine.inspirations| + |theirs.inspirations| > src.character.maxCols * src.character.maxRows {
      return NotEnoughRoomInspirations;
    }
    return Success;
  }

  method UpdateTrade(src: Entity, tgt: Entity, info: TradeInfo) returns (m: Message)
    requires src.character.Valid()
    modifies if src.trade == null then {} else {src.trade}
    ensures src.trade != tgt.trade || src.trade == null ==>
            m == GenericFailure && (src.trade != null ==> src.trade.State() == old(src.trade.State()))
    ensures src.trade == tgt.trade != null ==>
        (src.trade.State(), m)
        == Update(old(src.trade.State()), src.trade.IsA(src), src.trade.IsA(src) != src.trade.IsA(tgt), info,
            old(src.Carries()))
    ensures src.trade != null ==>
            src.trade.memberA.dbId == old(src.trade.memberA.dbId)
                && src.trade.memberB.dbId == old(src.trade.memberB.dbId)
  {
    if src.trade != tgt.trade {
      return GenericFailure;
    }
    if src.trade == null || tgt.trade == null {
      return GenericFailure;
    }
    hide HasRoom;
    var trade := src.trade;
    ghost var isA := trade.IsA(src);
    var modified := !trade.MemberInfo(src).EqualContent(info);
    trade.SetInfo(src, info);
    if modified {
      trade.SetInfo(src, trade.MemberInfo(src).(accepted := false));
      trade.SetInfo(tgt, trade.MemberInfo(tgt).(accepted := false));
    }
    var result := HasRoomForTrade(src, trade);
    if trade.MemberInfo(src).accepted && result != Success {
      trade.SetInfo(src, trade.MemberInfo(src).(accepted := false));
      return result;
    }
    return Success;
  }

  // ---- carrying out a trade ----

  method RemoveTradedEnhancements(ent: Entity, info: TradeInfo) returns (result: seq<Enhancement>)
    requires ent.character.Valid()
    modifies ent.character.enhancements, ent.character`hasUpdatedPowers
    ensures Taken(ent.character.Tray(), result) == Take(old(ent.character.Tray()), info.enhancements)
  {
    hide Trashed;
    var cd, idxs := ent.character, info.enhancements;
    ghost var whole := Take(cd.Tray(), idxs);
    result := [];
    assert idxs[0..] == idxs && [] + whole.items == whole.items;
    for i := 0 to |idxs|
      invariant cd.Valid()
      invariant whole == Taken(Take(cd.Tray(), idxs[i..]).tray, result + Take(cd.Tray(), idxs[i..]).items)
    {
      TakeStep(cd.Tray(), idxs, i, result);
      var enh := cd.GetEnhancement(idxs[i]);
      if enh.Some? {
        result := result + [enh.value];
        cd.TrashEnhancement(idxs[i]);
      }
    }
    assert idxs[|idxs|..] == [] && result + [] == result;
  }

  lemma TakeStep(t: Tray, idxs: seq<nat>, i: nat, result: seq<Enhancement>)
    requires i < |idxs|
    ensures var e, now := EnhancementAt(t, idxs[i]), Take(t, idxs[i..]);
            if e.None? then now == Take(t, idxs[i + 1..])
            else
              var rest := Take(Trashed(t, idxs[i]), idxs[i + 1..]);
              now.tray == rest.tray && result + now.items == result + [e.value] + rest.items
  {
    hide Trashed;
    assert idxs[i..][1..] == idxs[i + 1..];
  }

  method AddTradedEnhancements(ent: Entity, es: seq<Enhancement>)
    requires ent.character.Valid()
    modifies ent.character.enhancements, ent.character`hasUpdatedPowers
    ensures ent.character.Tray() == Give(old(ent.character.Tray()), es)
  {
    hide Added;
    var cd := ent.character;
    ghost var whole := Give(cd.Tray(), es);
    assert es[0..] == es;
    for i := 0 to |es|
      invariant cd.Valid() && Give(cd.Tray(), es[i..]) == whole
    {
      assert es[i..][1..] == es[i + 1..];
      cd.AddEnhancement(es[i]);
    }
  }

  method RemoveTradedInspirations(ent: Entity, info: TradeInfo) returns (result: seq<Inspiration>)
    requires ent.character.Valid()
    modifies ent.character`inspirations, ent.character`hasUpdatedPowers
    ensures ent.character.Valid()
    ensures Drawn(ent.character.inspirations, result)
         == Draw(old(ent.character.inspirations), ent.character.maxCols, ent.character.maxRows, info.inspirations)
  {
    hide Removed;
    var cd, cells := ent.character, info.inspirations;
    ghost var whole := Draw(cd.inspirations, cd.maxCols, cd.maxRows, cells);
    result := [];
    assert cells[0..] == cells && [] + whole.items == whole.items;
    for i := 0 to |cells|
      invariant cd.Valid()
      invariant var now := Draw(cd.inspirations, cd.maxCols, cd.maxRows, cells[i..]);
                whole == Drawn(now.grid, result + now.items)
    {
      DrawStep(cd.inspirations, cd.maxCols, cd.maxRows, cells, i, result);
      var insp := cd.GetInspiration(cells[i].col, cells[i].row);
      if insp.Some? {
        result := result + [insp.value];
        cd.RemoveInspiration(cells[i].col, cells[i].row);
      }
    }
    assert cells[|cells|..] == [] && result + [] == result;
  }

  lemma DrawStep(g: Grid, cols: nat, rows: nat, cells: seq<Cell>, i: nat, result: seq<Inspiration>)
    requires InGrid(g, cols, rows) && i < |cells|
    ensures var e, now := InspirationAt(g, cols, rows, cells[i].col, cells[i].row), Draw(g, cols, rows, cells[i..]);
            if e.None? then now == Draw(g, cols, rows, cells[i + 1..])
            else
              var rest := Draw(Removed(g, cells[i].col, cells[i].row, rows), cols, rows, cells[i + 1..]);
              now.grid == rest.grid && result + now.items == result + [e.value] + rest.items
  {
    hide Removed;
    assert cells[i..][1..] == cells[i + 1..];
  }

  method AddTradedInspirations(ent: Entity, xs: seq<Inspiration>)
    requires ent.character.Valid()
    modifies ent.character`inspirations, ent.character`hasUpdatedPowers
    ensures ent.character.Valid()
    ensures ent.character.inspirations
            == Stow(old(ent.character.inspirations), ent.character.maxCols, ent.character.maxRows, xs)
  {
    hide Received;
    var cd := ent.character;
    ghost var whole := Stow(cd.inspirations, cd.maxCols, cd.maxRows, xs);
    assert xs[0..] == xs;
    for i := 0 to |xs|
      invariant cd.Valid() && Stow(cd.inspirations, cd.maxCols, cd.maxRows, xs[i..]) == whole
    {
      assert xs[i..][1..] == xs[i + 1..];
      cd.AddInspiration(xs[i]);
    }
  }

  /**
   * Exchanges influence, enhancements and inspirations, and ends the trade for both.  Called with one entity twice, it
   * exchanges nothing and ends the trade for that one only.
   */
  method FinishTrade(src: Entity, tgt: Entity)
    requires src.trade == tgt.trade != null && src.character.Valid()
    requires src != tgt ==> Partners(src, tgt, src.trade)
    modifies src`trade, tgt`trade, src.character, tgt.character, src.character.enhancements, tgt.character.enhancements
    ensures src.trade == null && tgt.trade == null
    ensures src != tgt ==>
        (src.Carries(), tgt.Carries())
        == Finish(old(src.Carries()), old(tgt.Carries()), old(src.trade.MemberInfo(src)),
             old(src.trade.MemberInfo(tgt)))
    ensures src == tgt ==> src.Carries() == FinishSelf(old(src.Carries()), old(src.trade.MemberInfo(src)))
    ensures src.character.Valid() && tgt.character.Valid()
  {
    hide Take, Give, Draw, Stow;
    var infoSrc, infoTgt := src.trade.MemberInfo(src), src.trade.MemberInfo(tgt);
    var infSrc := Exchanged(src.character.influence, infoSrc.influence, infoTgt.influence);
    var infTgt := Exchanged(tgt.character.influence, infoTgt.influence, infoSrc.influence);
    src.character.influence := infSrc;
    tgt.character.influence := infTgt;
    var enhsSrc := RemoveTradedEnhancements(src, infoSrc);
    var enhsTgt := RemoveTradedEnhancements(tgt, infoTgt);
    AddTradedEnhancements(src, enhsTgt);
    AddTradedEnhancements(tgt, enhsSrc);
    var inspsSrc := RemoveTradedInspirations(src, infoSrc);
    var inspsTgt := RemoveTradedInspirations(tgt, infoTgt);
    AddTradedInspirations(src, inspsTgt);
    AddTradedInspirations(tgt, inspsSrc);
    src.trade := null;
    tgt.trade := null;
  }

  /** The server's handling of an update: a trade that is now accepted is finished with the target of the update. */
  method OnTradeUpdated(src: Entity, tgt: Entity, info: TradeInfo) returns (m: Message)
    requires src.character.Valid()
    requires src.trade == tgt.trade != null && src != tgt ==> Partners(src, tgt, src.trade)
    modifies src`trade, tgt`trade, src.character, tgt.character, src.character.enhancements, tgt.character.enhancements,
             if src.trade == null then {} else {src.trade}
    ensures src.trade == tgt.trade == null || (src.trade == old(src.trade) && tgt.trade == old(tgt.trade))
    ensures old(src.trade != tgt.trade || src.trade == null) ==>
        && m == GenericFailure && src.trade == old(src.trade) && tgt.trade == old(tgt.trade)
        && src.Carries() == old(src.Carries()) && tgt.Carries() == old(tgt.Carries())
    ensures old(src.trade == tgt.trade != null) ==>
        var t, isA := old(src.trade), old(src.trade.IsA(src));
        var r := Update(old(t.State()), isA, isA != old(t.IsA(tgt)), info, old(src.Carries()));
        && (t.State(), m) == r
        && (m == Success && r.0.IsAccepted() <==> src.trade == tgt.trade == null)
        && (src.trade == t ==> src.Carries() == old(src.Carries()) && tgt.Carries() == old(tgt.Carries()))
        && (src.trade == null && src != tgt ==>
             (src.Carries(), tgt.Carries())
             == Finish(old(src.Carries()), old(tgt.Carries()), r.0.Side(isA), r.0.Side(!isA)))
        && (src.trade == null && src == tgt ==> src.Carries() == FinishSelf(old(src.Carries()), r.0.Side(isA)))
        && t.memberA.dbId == old(t.memberA.dbId) && t.memberB.dbId == old(t.memberB.dbId)
  {
    hide HasRoom, Update, Finish, FinishSelf;
    m := UpdateTrade(src, tgt, info);
    if m == Success {
      var accepted := src.trade.IsAccepted();
      if accepted {
        FinishTrade(src, tgt);
      }
    }
  }

  /**
   * Two updates that a side addresses to itself, the other side having accepted: the trade counts as accepted and is
   * finished with oneself, so nothing changes hands, and the partner is left in a trade that nobody else is in.
   */
  method DealWithOneself(src: Entity, partner: Entity, changed: TradeInfo) returns (m1: Message, m2: Message)
    requires src != partner && src.trade == partner.trade != null && Partners(src, partner, src.trade)
    requires src.trade.OtherInfo(src).accepted && changed.accepted && !src.trade.MemberInfo(src).EqualContent(changed)
    requires HasRoom(src.Carries(), changed, src.trade.OtherInfo(src)) == Success
    modifies src`trade, src.character, src.character.enhancements, src.trade
    ensures m1 == m2 == Success && src.trade == null
    ensures partner.trade == old(partner.trade) && partner.trade.State().IsAccepted()
    ensures partner.Carries() == old(partner.Carries())
    ensures var c, c' := old(src.Carries()), src.Carries();
            && c'.Valid() && c'.influence == c.influence && Carried(c'.tray) == Carried(c.tray)
            && c'.cols == c.cols && c'.rows == c.rows
            && Stocked(c'.grid, c.cols, c.rows) == Stocked(c.grid, c.cols, c.rows)
  {
    hide HasRoom, FinishSelf, Carried, Stocked;
    m1 := OnTradeUpdated(src, src, changed);
    ghost var c := src.Carries();
    m2 := OnTradeUpdated(src, src, changed);
    SelfConserved(c, changed);
  }
}
