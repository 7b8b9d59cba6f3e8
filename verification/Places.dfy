/** Where things lie: every item knows its own place, whatever is added, moved and removed. */
module Places {
  import opened Bits
  import opened Options
  import opened Inventories

  // ---- the tray ----

  predicate Indexed(t: Tray) {
    forall i :: 0 <= i < |t| ==> t[i].slotIdx == i
  }

  /** Everything else about an enhancement is kept; it lands in the first free slot and no other slot changes. */
  lemma AddedWhere(t: Tray, e: Enhancement, i: nat)
    requires i < |t|
    ensures var first := !t[i].used && forall j :: 0 <= j < i ==> t[j].used;
            Added(t, e)[i] == if first then Enhancement(e.goods, i, true) else t[i]
    ensures Indexed(t) ==> Indexed(Added(t, e))
  {
    var k := FirstFree(t);
    if !t[i].used && forall j :: 0 <= j < i ==> t[j].used { FirstFreeAt(t, i); }
  }

  lemma TrashedWhere(t: Tray, k: nat, i: nat)
    requires k < |t| && i < |t|
    ensures Trashed(t, k)[i] == if i == k then Enhancement(Goods(0, 0, 0, "", 0, 0), i, false) else t[i]
    ensures Indexed(t) ==> Indexed(Trashed(t, k))
  {
  }

  // ---- the grid ----

  /** Every inspiration records the cell it lies in. */
  predicate Placed(g: Grid) {
    forall c, r :: 0 <= c < |g| && 0 <= r < |g[c]| && g[c][r].has ==> g[c][r].col == c && g[c][r].row == r
  }

  /** Before another cell, row by row. */
  predicate Before(c: nat, r: nat, c': nat, r': nat) {
    r < r' || (r == r' && c < c')
  }

  /** The cell found is empty and none before it is. */
  predicate FirstEmpty(g: Grid, cols: nat, rows: nat, c: nat, r: nat)
    requires InGrid(g, cols, rows)
  {
    && c < cols && r < rows && !g[c][r].has
    && forall i: nat, j: nat :: i < cols && j < rows && Before(i, j, c, r) ==> g[i][j].has
  }

  lemma {:induction false} FirstCell(g: Grid, cols: nat, rows: nat, row: nat, col: nat)
    requires InGrid(g, cols, rows) && row <= rows && col <= cols
    requires forall i: nat, j: nat :: i < cols && j < rows && Before(i, j, col, row) ==> g[i][j].has
    ensures var f := FreeCell(g, cols, rows, row, col);
            && (f.Some? ==> FirstEmpty(g, cols, rows, f.value.col, f.value.row))
            && (f.None? ==> forall i, j :: 0 <= i < cols && 0 <= j < rows ==> g[i][j].has)
    decreases rows - row, cols - col
  {
    if row < rows {
      if col == cols {
        FirstCell(g, cols, rows, row + 1, 0);
      } else if g[col][row].has {
        FirstCell(g, cols, rows, row, col + 1);
      }
    }
  }

  lemma OnlyFirst(g: Grid, cols: nat, rows: nat, c: nat, r: nat, c': nat, r': nat)
    requires InGrid(g, cols, rows) && FirstEmpty(g, cols, rows, c, r) && FirstEmpty(g, cols, rows, c', r')
    ensures c == c' && r == r'
  {
    assert !Before(c, r, c', r') && !Before(c', r', c, r);
  }

  /** An inspiration lands in the first empty cell, row by row, records it, and no other cell changes. */
  lemma ReceivedWhere(g: Grid, cols: nat, rows: nat, x: Inspiration, c: nat, r: nat)
    requires InGrid(g, cols, rows) && c < |g| && r < |g[c]|
    ensures Received(g, cols, rows, x)[c][r]
            == if FirstEmpty(g, cols, rows, c, r) then Inspiration(x.goods, c, r, true) else g[c][r]
  {
    FirstCell(g, cols, rows, 0, 0);
    var f := FreeCell(g, cols, rows, 0, 0);
    if f.Some? && FirstEmpty(g, cols, rows, c, r) { OnlyFirst(g, cols, rows, c, r, f.value.col, f.value.row); }
  }

  /** Two cells exchange what they hold, and each records its own place; no other cell changes. */
  lemma MovedWhere(g: Grid, sc: nat, sr: nat, dc: nat, dr: nat, c: nat, r: nat)
    requires sc < |g| && sr < |g[sc]| && dc < |g| && dr < |g[dc]| && c < |g| && r < |g[c]|
    ensures Moved(g, sc, sr, dc, dr)[c][r].Content()
            == if c == sc && r == sr then g[dc][dr].Content()
               else if c == dc && r == dr then g[sc][sr].Content()
               else g[c][r].Content()
  {
  }

  /** What a removal leaves in row j of its column. */
  function LeftIn(s: Column, r: nat, rows: nat, up: bool, j: nat): Content
    requires j < |s|
  {
    if j < r || (j > r && j >= rows) then s[j].Content()
    else if up && j + 1 < rows && j + 1 < |s| then s[j + 1].Content()
    else None
  }

  /** Removing empties one cell; in the counted columns those behind it move up, in any other they vanish. */
  lemma RemovedWhere(g: Grid, cols: nat, c: nat, r: nat, rows: nat, k: nat, j: nat)
    requires c < |g| && r < |g[c]| && rows <= |g[c]| && k < |g| && j < |g[k]|
    ensures RemovedAt(g, cols, c, r, rows)[k][j].Content()
            == if k != c then g[k][j].Content() else LeftIn(g[c], r, rows, c <= cols, j)
  {
  }

  // ---- whole runs ----

  datatype Change =
    | Receive(x: Inspiration)
    | Move(sc: nat, sr: nat, dc: nat, dr: nat)
    | Remove(c: nat, r: nat)

  /** What the calls ask of their callers. */
  predicate Allowed(g: Grid, cols: nat, rows: nat, ch: Change) {
    && InGrid(g, cols, rows)
    && match ch
       case Receive(_) => true
       case Move(sc, sr, dc, dr) =>
         && sc < |g| && sr < |g[sc]|
         && (if dc > cols || dr > rows then rows <= |g[sc]| else dc < |g| && dr < |g[dc]|)
       case Remove(c, r) => c < |g| && r < |g[c]| && rows <= |g[c]|
  }

  function Changed(g: Grid, cols: nat, rows: nat, ch: Change): (g': Grid)
    requires Allowed(g, cols, rows, ch)
    ensures |g'| == |g| && forall k :: 0 <= k < |g| ==> |g'[k]| == |g[k]|
  {
    match ch
    case Receive(x) => Received(g, cols, rows, x)
    case Move(sc, sr, dc, dr) =>
      if dc > cols || dr > rows then RemovedAt(g, cols, sc, sr, rows) else Moved(g, sc, sr, dc, dr)
    case Remove(c, r) => RemovedAt(g, cols, c, r, rows)
  }

  predicate AllAllowed(g: Grid, cols: nat, rows: nat, changes: seq<Change>)
    decreases |changes|
  {
    changes == []
    || (Allowed(g, cols, rows, changes[0]) && AllAllowed(Changed(g, cols, rows, changes[0]), cols, rows, changes[1..]))
  }

  function AllChanged(g: Grid, cols: nat, rows: nat, changes: seq<Change>): Grid
    requires AllAllowed(g, cols, rows, changes)
    decreases |changes|
  {
    if changes == [] then g else AllChanged(Changed(g, cols, rows, changes[0]), cols, rows, changes[1..])
  }

  lemma ReceivedPlaced(g: Grid, cols: nat, rows: nat, x: Inspiration)
    requires InGrid(g, cols, rows) && Placed(g)
    ensures Placed(Received(g, cols, rows, x))
  {
    hide FreeCell;
  }

  lemma MovedPlaced(g: Grid, sc: nat, sr: nat, dc: nat, dr: nat)
    requires sc < |g| && sr < |g[sc]| && dc < |g| && dr < |g[dc]| && Placed(g)
    ensures Placed(Moved(g, sc, sr, dc, dr))
  {
  }

  lemma RemovedPlaced(g: Grid, cols: nat, c: nat, r: nat, rows: nat)
    requires c < |g| && r < |g[c]| && rows <= |g[c]| && Placed(g)
    ensures Placed(RemovedAt(g, cols, c, r, rows))
  {
  }

  lemma ChangeKeepsPlaces(g: Grid, cols: nat, rows: nat, ch: Change)
    requires Allowed(g, cols, rows, ch) && Placed(g)
    ensures Placed(Changed(g, cols, rows, ch))
  {
    hide RemovedAt, Moved, Received, Placed;
    match ch
    case Receive(x) => ReceivedPlaced(g, cols, rows, x);
    case Move(sc, sr, dc, dr) =>
      if dc > cols || dr > rows {
        RemovedPlaced(g, cols, sc, sr, rows);
      } else {
        MovedPlaced(g, sc, sr, dc, dr);
      }
    case Remove(c, r) => RemovedPlaced(g, cols, c, r, rows);
  }

  /** After any calls in any order, an inspiration still records the cell it lies in. */
  lemma {:induction false} PlacedAlways(g: Grid, cols: nat, rows: nat, changes: seq<Change>)
    requires AllAllowed(g, cols, rows, changes) && Placed(g)
    ensures Placed(AllChanged(g, cols, rows, changes))
    decreases |changes|
  {
    hide Placed, Allowed, Changed;
    if changes != [] {
      ChangeKeepsPlaces(g, cols, rows, changes[0]);
      PlacedAlways(Changed(g, cols, rows, changes[0]), cols, rows, changes[1..]);
    }
  }
}
