/** Inspirations out of one grid and into another: which of them a list of offered cells really takes. */
module Draws {
  import opened Bits
  import opened Options
  import opened Inventories

  function InspiredOf(xs: seq<Inspiration>): (m: multiset<Goods>)
    ensures |m| == |xs|
  {
    if xs == [] then multiset{} else multiset{xs[0].goods} + InspiredOf(xs[1..])
  }

  datatype Drawn = Drawn(grid: Grid, items: seq<Inspiration>)

  /** Offered cells are removed one after the other; each removal moves the cells behind it. */
  function Draw(g: Grid, cols: nat, rows: nat, cells: seq<Cell>): (r: Drawn)
    requires InGrid(g, cols, rows)
    ensures InGrid(r.grid, cols, rows)
    decreases |cells|
  {
    if cells == [] then Drawn(g, [])
    else
      var e := InspirationAt(g, cols, rows, cells[0].col, cells[0].row);
      if e.None? then Draw(g, cols, rows, cells[1..])
      else
        var rest := Draw(Removed(g, cells[0].col, cells[0].row, rows), cols, rows, cells[1..]);
        Drawn(rest.grid, [e.value] + rest.items)
  }

  function Stow(g: Grid, cols: nat, rows: nat, xs: seq<Inspiration>): (r: Grid)
    requires InGrid(g, cols, rows)
    ensures InGrid(r, cols, rows)
    decreases |xs|
  {
    if xs == [] then g
    else
      ReceivedStocks(g, cols, rows, xs[0]);
      Stow(Received(g, cols, rows, xs[0]), cols, rows, xs[1..])
  }

  lemma {:induction false} DrawConserves(g: Grid, cols: nat, rows: nat, cells: seq<Cell>)
    requires InGrid(g, cols, rows)
    ensures var r := Draw(g, cols, rows, cells);
            Stocked(r.grid, cols, rows) + InspiredOf(r.items) == Stocked(g, cols, rows)
    decreases |cells|
  {
    hide Stocked, Removed;
    if cells != [] {
      var c := cells[0];
      var e := InspirationAt(g, cols, rows, c.col, c.row);
      if e.None? {
        DrawConserves(g, cols, rows, cells[1..]);
      } else {
        var g1 := Removed(g, c.col, c.row, rows);
        RemovedStocks(g, cols, rows, c.col, c.row);
        DrawConserves(g1, cols, rows, cells[1..]);
        var rest := Draw(g1, cols, rows, cells[1..]);
        assert ([e.value] + rest.items)[1..] == rest.items;
        assert Stocked(rest.grid, cols, rows) + (multiset{e.value.goods} + InspiredOf(rest.items))
            == Stocked(g1, cols, rows) + multiset{e.value.goods};
      }
    }
  }

  lemma {:induction false} StowConserves(g: Grid, cols: nat, rows: nat, xs: seq<Inspiration>)
    requires InGrid(g, cols, rows)
    ensures var r, free := Stow(g, cols, rows, xs), FreeCells(g, cols, rows);
            && (|xs| <= free ==> Stocked(r, cols, rows) == Stocked(g, cols, rows) + InspiredOf(xs))
            && |Stocked(r, cols, rows)| == |Stocked(g, cols, rows)| + (if |xs| <= free then |xs| else free)
    decreases |xs|
  {
    hide Stocked, Received, FreeCells;
    if xs != [] {
      var g1 := Received(g, cols, rows, xs[0]);
      ReceivedStocks(g, cols, rows, xs[0]);
      StowConserves(g1, cols, rows, xs[1..]);
    }
  }

  /** Within a column no later offer lies at or behind an earlier one. */
  predicate FrontLast(cells: seq<Cell>) {
    forall i, j :: 0 <= i < j < |cells| && cells[i].col == cells[j].col ==> cells[j].row < cells[i].row
  }

  /** Offers in different columns, or from the back of a column to its front, are handed over as offered. */
  lemma {:induction false} DrawOffered(g: Grid, cols: nat, rows: nat, cells: seq<Cell>)
    requires InGrid(g, cols, rows) && FrontLast(cells)
    requires forall i :: 0 <= i < |cells| ==> InspirationAt(g, cols, rows, cells[i].col, cells[i].row).Some?
    ensures var r := Draw(g, cols, rows, cells);
            && |r.items| == |cells|
            && forall i :: 0 <= i < |cells| ==>
               Some(r.items[i]) == InspirationAt(g, cols, rows, cells[i].col, cells[i].row)
    decreases |cells|
  {
    hide Removed, Stocked;
    if cells != [] {
      var c, rest := cells[0], cells[1..];
      var g1 := Removed(g, c.col, c.row, rows);
      RemovedStocks(g, cols, rows, c.col, c.row);
      forall i | 0 <= i < |rest|
        ensures g1[rest[i].col][rest[i].row] == g[rest[i].col][rest[i].row]
        ensures InspirationAt(g1, cols, rows, rest[i].col, rest[i].row)
                == InspirationAt(g, cols, rows, rest[i].col, rest[i].row)
      {
        assert rest[i] == cells[i + 1];
      }
      DrawOffered(g1, cols, rows, rest);
    }
  }

  /**
   * From front to back it goes wrong: the second offer has moved up before its turn, and what lay behind it is taken.
   */
  lemma ShiftedOffer(a: Inspiration, b: Inspiration, c: Inspiration)
    requires a.has && b.has && c.has
    ensures Draw([[a, b, c]], 1, 3, [Cell(0, 0), Cell(0, 1)]).items == [a, c.(col := 0, row := 1)]
  {
    var g, cells := [[a, b, c]], [Cell(0, 0), Cell(0, 1)];
    var g1 := Removed(g, 0, 0, 3);
    assert g1[0] == [b.(col := 0, row := 0), c.(col := 0, row := 1), NO_INSPIRATION.(col := 0, row := 2)];
    assert cells[1..] == [Cell(0, 1)];
    var rest := Draw(g1, 1, 3, cells[1..]);
    assert InspirationAt(g1, 1, 3, 0, 1) == Some(c.(col := 0, row := 1));
    assert Draw(Removed(g1, 0, 1, 3), 1, 3, []).items == [];
    assert [Cell(0, 1)][1..] == [];
    assert rest.items == [c.(col := 0, row := 1)];
  }

  // ---- which cell each draw takes ----

  /** Which original rows lie in each column now, from the front; the rows behind are empty. */
  type Layout = seq<seq<nat>>

  function Rows(n: nat): (r: seq<nat>)
    ensures |r| == n && forall k :: 0 <= k < n ==> r[k] == k
  {
    seq(n, k requires 0 <= k < n => k)
  }

  function Untouched(cols: nat, rows: nat): (r: Layout)
    ensures |r| == cols && forall c :: 0 <= c < cols ==> r[c] == Rows(rows)
  {
    seq(cols, c requires 0 <= c < cols => Rows(rows))
  }

  /** The cell that lies at c now, if it held an inspiration at first. */
  function Origin(g: Grid, lay: Layout, c: Cell): (r: Option<Cell>)
    ensures r.Some? ==> c.col < |lay| && c.row < |lay[c.col]| && r.value == Cell(c.col, lay[c.col][c.row])
  {
    if c.col < |lay| && c.row < |lay[c.col]| && Holds(g, Cell(c.col, lay[c.col][c.row]))
    then Some(Cell(c.col, lay[c.col][c.row])) else None
  }

  predicate Holds(g: Grid, c: Cell) {
    c.col < |g| && c.row < |g[c.col]| && g[c.col][c.row].has
  }

  /** The rows behind a removed one move up. */
  function Without(lay: Layout, c: Cell): Layout
    requires c.col < |lay| && c.row < |lay[c.col]|
  {
    lay[c.col := lay[c.col][..c.row] + lay[c.col][c.row + 1..]]
  }

  /** The original cell each offer takes, from the positions alone; None if it takes nothing. */
  function Trace(g: Grid, lay: Layout, cells: seq<Cell>): (r: seq<Option<Cell>>)
    ensures |r| == |cells|
    decreases |cells|
  {
    if cells == [] then []
    else
      var o := Origin(g, lay, cells[0]);
      [o] + Trace(g, if o.Some? then Without(lay, cells[0]) else lay, cells[1..])
  }

  function TakenCells(tr: seq<Option<Cell>>): (r: seq<Cell>)
    ensures |r| <= |tr|
  {
    if tr == [] then []
    else (if tr[0].Some? then [tr[0].value] else []) + TakenCells(tr[1..])
  }

  /** The original cells a list of offers takes out of a grid. */
  function Sources(g: Grid, cols: nat, rows: nat, cells: seq<Cell>): (r: seq<Option<Cell>>)
    ensures |r| == |cells|
  {
    Trace(g, Untouched(cols, rows), cells)
  }

  /** Grid g is the original grid g0 with its columns laid out like this. */
  ghost predicate LaidOut(g0: Grid, g: Grid, cols: nat, rows: nat, lay: Layout) {
    && InGrid(g0, cols, rows) && InGrid(g, cols, rows) && |lay| == cols
    && (forall c :: 0 <= c < cols ==> |lay[c]| <= rows)
    && (forall c, k :: 0 <= c < cols && 0 <= k < |lay[c]| ==>
         lay[c][k] < rows && g[c][k].Content() == g0[c][lay[c][k]].Content())
    && (forall c, k :: 0 <= c < cols && |lay[c]| <= k < rows ==> !g[c][k].has)
  }

  lemma OriginHolds(g0: Grid, g: Grid, cols: nat, rows: nat, lay: Layout, c: Cell)
    requires LaidOut(g0, g, cols, rows, lay)
    ensures var e, o := InspirationAt(g, cols, rows, c.col, c.row), Origin(g0, lay, c);
            && (e.Some? <==> o.Some?)
            && (o.Some? ==> c.col < cols && c.row < rows && o.value.row < rows && e.value.has
                            && Holds(g0, o.value) && e.value.goods == g0[o.value.col][o.value.row].goods)
    ensures InGrid(g, cols, rows)
  {
    if c.col < cols && c.row < rows && c.row < |lay[c.col]| {
      assert g[c.col][c.row].Content() == g0[c.col][lay[c.col][c.row]].Content();
    }
  }

  lemma RemovedLayout(g0: Grid, g: Grid, cols: nat, rows: nat, lay: Layout, c: Cell)
    requires LaidOut(g0, g, cols, rows, lay) && c.col < cols && c.row < |lay[c.col]|
    ensures LaidOut(g0, Removed(g, c.col, c.row, rows), cols, rows, Without(lay, c))
  {
    hide Stocked;
    var g': Grid := Removed(g, c.col, c.row, rows);
    var lay': Layout := Without(lay, c);
    RemovedStocks(g, cols, rows, c.col, c.row);
    var before, after := lay[c.col], lay'[c.col];
    assert forall k :: 0 <= k < |after| ==> after[k] == if k < c.row then before[k] else before[k + 1];
    LastRowEmpty(g, c, rows);
    hide Removed, Without;
    forall k | |after| <= k < rows
      ensures !g'[c.col][k].has
    {
      if k < rows - 1 {
        assert g'[c.col][k].Content() == g[c.col][k + 1].Content();
        assert !g[c.col][k + 1].has;
      }
    }
  }

  lemma LastRowEmpty(g: Grid, c: Cell, rows: nat)
    requires c.col < |g| && c.row < rows <= |g[c.col]|
    ensures !Removed(g, c.col, c.row, rows)[c.col][rows - 1].has
  {
  }

  /** The goods in the given cells. */
  ghost predicate GoodsFrom(items: seq<Inspiration>, g: Grid, cells: seq<Cell>) {
    && |items| == |cells|
    && forall i :: 0 <= i < |items| ==>
         && Holds(g, cells[i])
         && items[i].has && items[i].goods == g[cells[i].col][cells[i].row].goods
  }

  lemma GoodsNone(g: Grid)
    ensures GoodsFrom([], g, [])
  {
  }

  lemma GoodsPrepend(x: Inspiration, items: seq<Inspiration>, g: Grid, c: Cell, cells: seq<Cell>)
    requires GoodsFrom(items, g, cells) && Holds(g, c) && x.has && x.goods == g[c.col][c.row].goods
    ensures GoodsFrom([x] + items, g, [c] + cells)
  {
  }

  /** What the draws take is what lay in the traced cells at first. */
  lemma {:induction false} DrawTakesFrom(g0: Grid, g: Grid, cols: nat, rows: nat, lay: Layout, cells: seq<Cell>)
    requires LaidOut(g0, g, cols, rows, lay)
    ensures GoodsFrom(Draw(g, cols, rows, cells).items, g0, TakenCells(Trace(g0, lay, cells)))
    decreases |cells|
  {
    hide LaidOut, Removed, Origin, GoodsFrom, Holds;
    if cells == [] {
      GoodsNone(g0);
    } else {
      var c := cells[0];
      OriginHolds(g0, g, cols, rows, lay, c);
      var tr := Trace(g0, lay, cells);
      if tr[0].Some? {
        var lay' := Without(lay, c);
        RemovedLayout(g0, g, cols, rows, lay, c);
        DrawTakesFrom(g0, Removed(g, c.col, c.row, rows), cols, rows, lay', cells[1..]);
        assert tr[1..] == Trace(g0, lay', cells[1..]);
        var first := InspirationAt(g, cols, rows, c.col, c.row);
        var rest := Draw(Removed(g, c.col, c.row, rows), cols, rows, cells[1..]);
        GoodsPrepend(first.value, rest.items, g0, tr[0].value, TakenCells(tr[1..]));
      } else {
        DrawTakesFrom(g0, g, cols, rows, lay, cells[1..]);
        assert tr[1..] == Trace(g0, lay, cells[1..]);
        assert TakenCells(tr) == TakenCells(tr[1..]);
      }
    }
  }

  lemma DrawTakes(g: Grid, cols: nat, rows: nat, cells: seq<Cell>)
    requires InGrid(g, cols, rows)
    ensures GoodsFrom(Draw(g, cols, rows, cells).items, g, TakenCells(Sources(g, cols, rows, cells)))
  {
    DrawTakesFrom(g, g, cols, rows, Untouched(cols, rows), cells);
  }

  // ---- offers taken as offered ----

  /** Different cells that hold something. */
  predicate DistinctHeld(g: Grid, cols: nat, rows: nat, cells: seq<Cell>)
    requires InGrid(g, cols, rows)
  {
    && (forall i :: 0 <= i < |cells| ==> InspirationAt(g, cols, rows, cells[i].col, cells[i].row).Some?)
    && forall i, j :: 0 <= i < j < |cells| ==> cells[i] != cells[j]
  }

  lemma {:induction false} TakenAll(tr: seq<Option<Cell>>)
    ensures |TakenCells(tr)| == |tr| <==> forall i :: 0 <= i < |tr| ==> tr[i].Some?
    ensures |TakenCells(tr)| == |tr| ==> forall i :: 0 <= i < |tr| ==> tr[i] == Some(TakenCells(tr)[i])
  {
    if tr != [] {
      TakenAll(tr[1..]);
      assert forall i :: 1 <= i < |tr| ==> tr[i] == tr[1..][i - 1];
    }
  }

  /** The offer is taken as offered exactly if every draw takes a cell that holds the same goods as the offered one. */
  lemma TakenAsOffered(g: Grid, cols: nat, rows: nat, cells: seq<Cell>)
    requires InGrid(g, cols, rows) && DistinctHeld(g, cols, rows, cells)
    ensures var items, tr := Draw(g, cols, rows, cells).items, Sources(g, cols, rows, cells);
            && |items| == |TakenCells(tr)|
            && (GoodsFrom(items, g, cells)
                <==> forall i :: 0 <= i < |cells| ==> tr[i].Some? && SameGoods(g, tr[i].value, cells[i]))
  {
    hide Draw, Sources;
    var items, tr := Draw(g, cols, rows, cells).items, Sources(g, cols, rows, cells);
    DrawTakes(g, cols, rows, cells);
    TakenAll(tr);
    assert forall i :: 0 <= i < |cells| ==> Holds(g, cells[i]);
  }

  predicate SameGoods(g: Grid, a: Cell, b: Cell) {
    Holds(g, a) && Holds(g, b) && g[a.col][a.row].goods == g[b.col][b.row].goods
  }

  // ---- the order of offers ----

  /** Up to the offered row the column has not changed. */
  predicate StillThere(lay: Layout, c: Cell) {
    c.col < |lay| && c.row < |lay[c.col]| && forall k :: 0 <= k <= c.row ==> lay[c.col][k] == k
  }

  lemma {:induction false} TraceInTurn(g: Grid, lay: Layout, cells: seq<Cell>)
    requires FrontLast(cells) && forall i :: 0 <= i < |cells| ==> Holds(g, cells[i]) && StillThere(lay, cells[i])
    ensures forall i :: 0 <= i < |cells| ==> Trace(g, lay, cells)[i] == Some(cells[i])
    decreases |cells|
  {
    if cells != [] {
      var c, rest := cells[0], cells[1..];
      var lay' := Without(lay, c);
      forall i | 0 <= i < |rest|
        ensures Holds(g, rest[i]) && StillThere(lay', rest[i])
      {
        assert rest[i] == cells[i + 1];
      }
      TraceInTurn(g, lay', rest);
    }
  }

  /** From row n of the column on, every cell has moved up. */
  predicate Shifted(lay: Layout, col: nat, n: nat) {
    col < |lay| && forall k :: n <= k < |lay[col]| ==> lay[col][k] > k
  }

  predicate Increasing(lay: Layout) {
    forall c, i, j :: 0 <= c < |lay| && 0 <= i < j < |lay[c]| ==> lay[c][i] < lay[c][j]
  }

  lemma StaysShifted(lay: Layout, c: Cell, col: nat, n: nat)
    requires Increasing(lay) && c.col < |lay| && c.row < |lay[c.col]|
    ensures Increasing(Without(lay, c))
    ensures Shifted(lay, col, n) ==> Shifted(Without(lay, c), col, n)
    ensures lay[c.col][c.row] == c.row ==> Shifted(Without(lay, c), c.col, c.row)
  {
    var before, after := lay[c.col], Without(lay, c)[c.col];
    assert forall k :: 0 <= k < |after| ==> after[k] == if k < c.row then before[k] else before[k + 1];
    if lay[c.col][c.row] == c.row { AtLeast(before, c.row); }
  }

  lemma {:induction false} AtLeast(s: seq<nat>, n: nat)
    requires n < |s| && s[n] == n && forall i, j :: 0 <= i < j < |s| ==> s[i] < s[j]
    ensures forall k :: n <= k < |s| ==> s[k] >= k
    decreases |s| - n
  {
    forall k | n <= k < |s|
      ensures s[k] >= k
    {
      AtLeastOne(s, n, k);
    }
  }

  lemma {:induction false} AtLeastOne(s: seq<nat>, n: nat, k: nat)
    requires n <= k < |s| && s[n] == n && forall i, j :: 0 <= i < j < |s| ==> s[i] < s[j]
    ensures s[k] >= k
    decreases k
  {
    if k > n { AtLeastOne(s, n, k - 1); }
  }

  /** An offer behind one that has been taken misses its cell. */
  lemma {:induction false} TraceMisses(g: Grid, lay: Layout, cells: seq<Cell>, i: nat, n: nat)
    requires i < |cells| && Increasing(lay) && Shifted(lay, cells[i].col, n) && n <= cells[i].row
    ensures Trace(g, lay, cells)[i] != Some(cells[i])
    decreases |cells|
  {
    if i > 0 {
      var o := Origin(g, lay, cells[0]);
      if o.Some? { StaysShifted(lay, cells[0], cells[i].col, n); }
      TraceMisses(g, if o.Some? then Without(lay, cells[0]) else lay, cells[1..], i - 1, n);
    }
  }

  /** If all draws take their own cells, no offer lies behind an earlier one of its column. */
  lemma {:induction false} InTurnOnly(g: Grid, lay: Layout, cells: seq<Cell>)
    requires Increasing(lay) && forall i :: 0 <= i < |cells| ==> Trace(g, lay, cells)[i] == Some(cells[i])
    ensures FrontLast(cells)
    decreases |cells|
  {
    if cells != [] {
      var c, rest := cells[0], cells[1..];
      var lay' := Without(lay, c);
      var tr := Trace(g, lay, cells);
      assert tr[0] == Some(c);
      StaysShifted(lay, c, c.col, c.row);
      assert tr[1..] == Trace(g, lay', rest);
      forall i | 0 <= i < |rest|
        ensures Trace(g, lay', rest)[i] == Some(rest[i])
      {
        assert tr[i + 1] == Some(cells[i + 1]);
      }
      InTurnOnly(g, lay', rest);
      forall j | 1 <= j < |cells| && cells[0].col == cells[j].col
        ensures cells[j].row < cells[0].row
      {
        if cells[j].row >= c.row { TraceMisses(g, lay', rest, j - 1, c.row); }
      }
      forall i, j | 0 <= i < j < |cells| && cells[i].col == cells[j].col
        ensures cells[j].row < cells[i].row
      {
        if i > 0 { assert rest[i - 1] == cells[i] && rest[j - 1] == cells[j]; }
      }
    }
  }

  /**
   * Every draw takes the cell that was offered exactly if within each column the offers go from the back to the front.
   */
  lemma InTurn(g: Grid, cols: nat, rows: nat, cells: seq<Cell>)
    requires InGrid(g, cols, rows) && DistinctHeld(g, cols, rows, cells)
    ensures (forall i :: 0 <= i < |cells| ==> Sources(g, cols, rows, cells)[i] == Some(cells[i])) <==> FrontLast(cells)
  {
    var lay, tr := Untouched(cols, rows), Sources(g, cols, rows, cells);
    if FrontLast(cells) { TraceInTurn(g, lay, cells); }
    if forall i :: 0 <= i < |cells| ==> tr[i] == Some(cells[i]) { InTurnOnly(g, lay, cells); }
  }
}
