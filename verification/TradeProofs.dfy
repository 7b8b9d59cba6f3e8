/** What the room checks of a trade mean for the inventories, and that two players who agree come to an exchange. */
module TradeProofs {
  import opened Bits
  import opened Options
  import opened Inventories
  import opened Places
  import opened Draws
  import opened Trades

  // ---- the room checks name real shortages ----

  /** The influence a side ends up with, computed modulo 2^32, is below what it receives. */
  predicate InfluenceShort(own: u32, offered: u32, received: u32) {
    if offered <= own then own - offered + received >= MODULUS else received >= offered - own
  }

  lemma InfluenceRefused(own: u32, offered: u32, received: u32)
    ensures RoomForInfluence(own, offered, received) <==> !InfluenceShort(own, offered, received)
  {
  }

  /** Some enhancement of the other side finds no slot once the own offer is taken out. */
  predicate TrayShort(me: Carrier, other: Carrier, mine: TradeInfo, theirs: TradeInfo) {
    |Take(other.tray, theirs.enhancements).items| > FreeSlots(Take(me.tray, mine.enhancements).tray)
  }

  /** Some inspiration of the other side finds no cell once the own offer is taken out. */
  predicate GridShort(me: Carrier, other: Carrier, mine: TradeInfo, theirs: TradeInfo)
    requires me.Valid() && other.Valid()
  {
    |Draw(other.grid, other.cols, other.rows, theirs.inspirations).items|
    > FreeCells(Draw(me.grid, me.cols, me.rows, mine.inspirations).grid, me.cols, me.rows)
  }

  /** A side is refused for items exactly if they find too little room; the inspirations go from back to front. */
  lemma RoomExactly(me: Carrier, other: Carrier, mine: TradeInfo, theirs: TradeInfo)
    requires me.Valid() && other.Valid() && Offers(me, mine) && Offers(other, theirs)
    ensures RoomForEnhancements(me, mine, theirs) <==> !TrayShort(me, other, mine, theirs)
    ensures FrontLast(mine.inspirations) && FrontLast(theirs.inspirations) ==>
              (RoomForInspirations(me, mine, theirs) <==> !GridShort(me, other, mine, theirs))
  {
    hide Take, Draw, Carried, Stocked, FreeCells, Offers, TakenCount;
    OfferTaken(me, mine);
    OfferTaken(other, theirs);
    CellsCounted(Draw(me.grid, me.cols, me.rows, mine.inspirations).grid, me.cols, me.rows);
  }

  /** Both sides pass the checks for items exactly if every item finds a place. */
  lemma RoomNecessary(a: Carrier, b: Carrier, oa: TradeInfo, ob: TradeInfo)
    requires a.Valid() && b.Valid() && Offers(a, oa) && Offers(b, ob)
    ensures RoomForEnhancements(a, oa, ob) && RoomForEnhancements(b, ob, oa) <==> TraysFit(a, b, oa, ob)
    ensures FrontLast(oa.inspirations) && FrontLast(ob.inspirations) ==>
              (RoomForInspirations(a, oa, ob) && RoomForInspirations(b, ob, oa) <==> GridsFit(a, b, oa, ob))
  {
    hide Take, Draw, FreeCells, Offers, RoomForEnhancements, RoomForInspirations;
    RoomExactly(a, b, oa, ob);
    RoomExactly(b, a, ob, oa);
  }

  /** Each message is given exactly for the first shortage there is: of influence, of slots, of cells. */
  lemma RefusedExactly(me: Carrier, other: Carrier, mine: TradeInfo, theirs: TradeInfo)
    requires me.Valid() && other.Valid() && Offers(me, mine) && Offers(other, theirs)
    requires FrontLast(mine.inspirations) && FrontLast(theirs.inspirations)
    ensures HasRoom(me, mine, theirs) ==
            if InfluenceShort(me.influence, mine.influence, theirs.influence) then NotEnoughRoomInfluence
            else if TrayShort(me, other, mine, theirs) then NotEnoughRoomEnhancements
            else if GridShort(me, other, mine, theirs) then NotEnoughRoomInspirations
            else Success
  {
    hide Offers, RoomForInfluence, RoomForEnhancements, RoomForInspirations, InfluenceShort, TrayShort, GridShort;
    InfluenceRefused(me.influence, mine.influence, theirs.influence);
    RoomExactly(me, other, mine, theirs);
  }

  // ---- what an update does to acceptances ----

  /** Equal content leaves open only who sent it and whether it accepts. */
  lemma ContentExactly(x: TradeInfo, y: TradeInfo)
    ensures x.EqualContent(y) <==> y == x.(dbId := y.dbId, accepted := y.accepted)
  {
  }

  /**
   * Repeating the recorded offer touches nothing of the other side, whoever the update names.  An acceptance in it
   * stands exactly if there is room, and otherwise the message says what is short.
   */
  lemma OfferRepeated(t: TradeState, byA: bool, toOther: bool, info: TradeInfo, me: Carrier)
    requires me.Valid() && t.Side(byA).EqualContent(info)
    ensures var (t', m) := Update(t, byA, toOther, info, me);
            var room := HasRoom(me, info, t.Side(!byA));
            && t'.Side(!byA) == t.Side(!byA)
            && t'.Side(byA) == info.(accepted := info.accepted && room == Success)
            && m == if info.accepted then room else Success
  {
    hide HasRoom;
  }

  /** A new offer is recorded unaccepted and clears the acceptance of the other member if it names it. */
  lemma OfferChanged(t: TradeState, byA: bool, toOther: bool, info: TradeInfo, me: Carrier)
    requires me.Valid() && !t.Side(byA).EqualContent(info)
    ensures var (t', m) := Update(t, byA, toOther, info, me);
            && t'.Side(byA) == info.(accepted := false) && m == Success
            && t'.Side(!byA) == t.Side(!byA).(accepted := t.Side(!byA).accepted && !toOther)
  {
    hide HasRoom;
  }

  /** Both make their offers, then both accept. */
  function Negotiation(a: Carrier, b: Carrier, oa: TradeInfo, ob: TradeInfo): seq<Act> {
    var offerA, offerB := Act(true, true, oa.(accepted := true), a), Act(false, true, ob.(accepted := true), b);
    [offerA, offerB, offerA, offerB]
  }

  /** From empty offers, the trade is accepted on the very offers made exactly if both sides have room. */
  lemma AgreementReached(a: Carrier, b: Carrier, oa: TradeInfo, ob: TradeInfo)
    requires a.Valid() && b.Valid()
    ensures var acts := Negotiation(a, b, oa, ob);
            var t := Run(TradeState(EMPTY_INFO, EMPTY_INFO), acts);
            && WellAddressed(acts) && t.a.EqualContent(oa) && t.b.EqualContent(ob)
            && (t.a.accepted <==> HasRoom(a, oa, ob) == Success)
            && (t.b.accepted <==> HasRoom(b, ob, oa) == Success)
  {
    hide HasRoom, Update;
    var acts, t0 := Negotiation(a, b, oa, ob), TradeState(EMPTY_INFO, EMPTY_INFO);
    var t1 := Made(t0, acts[0]);
    var t2 := Made(t1, acts[1]);
    var t3 := Made(t2, acts[2]);
    var t4 := Made(t3, acts[3]);
    assert acts[..0] == [] && acts[..4] == acts;
    Onward(t0, acts, 0);
    Onward(t0, acts, 1);
    Onward(t0, acts, 2);
    Onward(t0, acts, 3);
    RoomByTerms(a, acts[2].info, t2.b, oa, ob);
    RoomByTerms(b, acts[3].info, t3.a, ob, oa);
  }

  lemma Onward(t: TradeState, acts: seq<Act>, n: nat)
    requires CanAct(acts) && n < |acts|
    ensures CanAct(acts[..n]) && CanAct(acts[..n + 1])
    ensures Run(t, acts[..n + 1])
         == Update(Run(t, acts[..n]), acts[n].byA, acts[n].toOther, acts[n].info, acts[n].me).0
  {
    hide Update;
    assert acts[..n + 1][..n] == acts[..n];
  }

  /** An update that names the other member records its offer and touches nothing else but acceptances. */
  lemma Made(t: TradeState, act: Act) returns (t': TradeState)
    requires act.me.Valid() && act.toOther && act.info.accepted
    ensures t' == Update(t, act.byA, act.toOther, act.info, act.me).0
    ensures t'.Side(act.byA).EqualContent(act.info) && t'.Side(!act.byA).EqualContent(t.Side(!act.byA))
    ensures t.Side(act.byA).EqualContent(act.info) ==>
              t'.Side(!act.byA) == t.Side(!act.byA)
              && (t'.Side(act.byA).accepted <==> HasRoom(act.me, act.info, t.Side(!act.byA)) == Success)
  {
    hide HasRoom;
    t' := Update(t, act.byA, act.toOther, act.info, act.me).0;
  }

  /** Two partners who repeat their offers, both with room, exchange them, and the trade ends for both. */
  method Conclude(src: Entity, tgt: Entity, oa: TradeInfo, ob: TradeInfo)
    requires src != tgt && src.trade == tgt.trade != null && Partners(src, tgt, src.trade)
    requires src.trade.MemberInfo(src).EqualContent(oa) && src.trade.MemberInfo(tgt).EqualContent(ob)
    requires HasRoom(src.Carries(), oa, ob) == Success && HasRoom(tgt.Carries(), ob, oa) == Success
    requires !src.trade.MemberInfo(tgt).accepted
    modifies src`trade, tgt`trade, src.character, tgt.character, src.character.enhancements, tgt.character.enhancements,
             src.trade
    ensures src.trade == tgt.trade == null
    ensures (src.Carries(), tgt.Carries())
            == Finish(old(src.Carries()), old(tgt.Carries()), oa.(accepted := true), ob.(accepted := true))
  {
    hide HasRoom, Finish, FinishSelf;
    ghost var t, a, b := src.trade, src.Carries(), tgt.Carries();
    var sa, sb := oa.(accepted := true), ob.(accepted := true);
    RoomByTerms(a, sa, t.MemberInfo(tgt), oa, ob);
    RoomByTerms(b, sb, sa, ob, oa);
    OfferRepeated(t.State(), t.IsA(src), true, sa, a);
    var m1 := OnTradeUpdated(src, tgt, sa);
    OfferRepeated(t.State(), t.IsA(tgt), true, sb, b);
    var m2 := OnTradeUpdated(tgt, src, sb);
    Exchange(a, b, sa, sb);
  }

  /** The exchange is the same from either side. */
  lemma Exchange(a: Carrier, b: Carrier, oa: TradeInfo, ob: TradeInfo)
    requires a.Valid() && b.Valid()
    ensures Finish(b, a, ob, oa) == (Finish(a, b, oa, ob).1, Finish(a, b, oa, ob).0)
  {
    hide Take, Give, Draw, Stow;
  }

  // ---- where things end up ----

  /** Taking empties exactly the offered slots. */
  lemma {:induction false} TakeAt(t: Tray, idxs: seq<nat>, i: nat)
    requires i < |t|
    ensures Take(t, idxs).tray[i] == if i in idxs && t[i].used then Enhancement(NO_GOODS, i, false) else t[i]
    decreases |idxs|
  {
    if idxs != [] {
      assert i in idxs <==> i == idxs[0] || i in idxs[1..];
      var e := EnhancementAt(t, idxs[0]);
      TakeAt(if e.None? then t else Trashed(t, idxs[0]), idxs[1..], i);
    }
  }

  function FreeBefore(t: Tray, i: nat): nat
    requires i <= |t|
  {
    if i == 0 then 0 else FreeBefore(t, i - 1) + if t[i - 1].used then 0 else 1
  }

  lemma {:induction false} OneUsedMore(t: Tray, t': Tray, k: nat, i: nat)
    requires k < |t| == |t'| && i <= |t| && !t[k].used && t'[k].used
    requires forall j :: 0 <= j < |t| && j != k ==> t'[j] == t[j]
    ensures FreeBefore(t', i) == FreeBefore(t, i) - if k < i then 1 else 0
  {
    if i > 0 { OneUsedMore(t, t', k, i - 1); }
  }

  lemma {:induction false} AllUsedBefore(t: Tray, i: nat)
    requires i <= |t|
    ensures FreeBefore(t, i) == 0 <==> forall j :: 0 <= j < i ==> t[j].used
  {
    if i > 0 { AllUsedBefore(t, i - 1); }
  }

  /** The n-th item given lands in the n-th free slot, and no other slot changes. */
  lemma {:induction false} GiveAt(t: Tray, es: seq<Enhancement>, i: nat)
    requires i < |t|
    ensures var n := FreeBefore(t, i);
            Give(t, es)[i] == if t[i].used || n >= |es| then t[i] else Enhancement(es[n].goods, i, true)
    decreases |es|
  {
    if es != [] {
      var t', k := Added(t, es[0]), FirstFree(t);
      GiveAt(t', es[1..], i);
      AllUsedBefore(t, i);
      if k < |t| { OneUsedMore(t, t', k, i); }
    }
  }

  /** The empty cells before a place, row by row. */
  function EmptyBefore(g: Grid, cols: nat, rows: nat, col: nat, row: nat): nat
    requires InGrid(g, cols, rows) && col <= cols && row <= rows && (col > 0 ==> row < rows)
    decreases row, col
  {
    if col > 0 then EmptyBefore(g, cols, rows, col - 1, row) + if g[col - 1][row].has then 0 else 1
    else if row > 0 then EmptyBefore(g, cols, rows, cols, row - 1)
    else 0
  }

  lemma {:induction false} AllHeldBefore(g: Grid, cols: nat, rows: nat, col: nat, row: nat)
    requires InGrid(g, cols, rows) && col <= cols && row <= rows && (col > 0 ==> row < rows)
    ensures EmptyBefore(g, cols, rows, col, row) == 0
            <==> forall i: nat, j: nat :: i < cols && j < rows && Before(i, j, col, row) ==> g[i][j].has
    decreases row, col
  {
    if col > 0 {
      AllHeldBefore(g, cols, rows, col - 1, row);
      assert Before(col - 1, row, col, row);
    } else if row > 0 {
      AllHeldBefore(g, cols, rows, cols, row - 1);
    }
  }

  lemma {:induction false} OneHeldMore(g: Grid, g': Grid, cols: nat, rows: nat, c: nat, r: nat, col: nat, row: nat)
    requires InGrid(g, cols, rows) && InGrid(g', cols, rows) && c < cols && r < rows && !g[c][r].has && g'[c][r].has
    requires forall i: nat, j: nat :: i < cols && j < rows && (i != c || j != r) ==> g'[i][j] == g[i][j]
    requires col <= cols && row <= rows && (col > 0 ==> row < rows)
    ensures EmptyBefore(g', cols, rows, col, row)
            == EmptyBefore(g, cols, rows, col, row) - if Before(c, r, col, row) then 1 else 0
    decreases row, col
  {
    if col > 0 {
      OneHeldMore(g, g', cols, rows, c, r, col - 1, row);
    } else if row > 0 {
      OneHeldMore(g, g', cols, rows, c, r, cols, row - 1);
    }
  }

  /** The n-th inspiration put in lands in the n-th empty cell, row by row, and no other cell changes. */
  lemma {:induction false} StowAt(g: Grid, cols: nat, rows: nat, xs: seq<Inspiration>, c: nat, r: nat)
    requires InGrid(g, cols, rows) && c < cols && r < rows
    ensures var n := EmptyBefore(g, cols, rows, c, r);
            Stow(g, cols, rows, xs)[c][r]
            == if g[c][r].has || n >= |xs| then g[c][r] else Inspiration(xs[n].goods, c, r, true)
    decreases |xs|
  {
    hide Received, FreeCell;
    if xs != [] {
      var g' := Received(g, cols, rows, xs[0]);
      StowStep(g, cols, rows, xs[0], c, r);
      StowAt(g', cols, rows, xs[1..], c, r);
      ReceivedWhere(g, cols, rows, xs[0], c, r);
      AllHeldBefore(g, cols, rows, c, r);
    }
  }

  /** One more inspiration: the count before a place drops by one if the first empty cell is before it. */
  lemma StowStep(g: Grid, cols: nat, rows: nat, x: Inspiration, c: nat, r: nat)
    requires InGrid(g, cols, rows) && c < cols && r < rows
    ensures var g' := Received(g, cols, rows, x);
            && InGrid(g', cols, rows)
            && EmptyBefore(g', cols, rows, c, r)
               == if EmptyBefore(g, cols, rows, c, r) == 0 then 0 else EmptyBefore(g, cols, rows, c, r) - 1
  {
    var f, g' := FreeCell(g, cols, rows, 0, 0), Received(g, cols, rows, x);
    FirstCell(g, cols, rows, 0, 0);
    AllHeldBefore(g, cols, rows, c, r);
    if f.Some? { OneHeldMore(g, g', cols, rows, f.value.col, f.value.row, c, r); }
  }
}
