/** What a character carries: a tray of enhancements and a grid of inspirations. */
module Inventories {
  import opened Bits
  import opened Options

  /** What an item is, apart from where it lies. */
  datatype Goods = Goods(category: u32, powerSet: u32, power: u32, name: string, level: u32, combines: u32)

  const NO_GOODS := Goods(0, 0, 0, "", 0, 0)

  /** What a slot holds. */
  type Content = Option<Goods>

  function One(c: Content): multiset<Goods> {
    if c.Some? then multiset{c.value} else multiset{}
  }

  function HeldIn(s: seq<Content>): (m: multiset<Goods>)
    ensures |m| <= |s|
  {
    if s == [] then multiset{} else One(s[0]) + HeldIn(s[1..])
  }

  lemma {:induction false} HeldConcat(a: seq<Content>, b: seq<Content>)
    ensures HeldIn(a + b) == HeldIn(a) + HeldIn(b)
    decreases |a|
  {
    if a == [] {
      assert a + b == b;
    } else {
      assert (a + b)[1..] == a[1..] + b;
      HeldConcat(a[1..], b);
    }
  }

  lemma HeldOne(c: Content)
    ensures HeldIn([c]) == One(c)
  {
    assert HeldIn([c][1..]) == multiset{};
  }

  /** Changing one slot exchanges its content. */
  lemma HeldUpdate(s: seq<Content>, i: nat, c: Content)
    requires i < |s|
    ensures HeldIn(s[i := c]) + One(s[i]) == HeldIn(s) + One(c)
  {
    assert s == s[..i] + ([s[i]] + s[i + 1..]) && s[i := c] == s[..i] + ([c] + s[i + 1..]);
    HeldConcat(s[..i], [s[i]] + s[i + 1..]);
    HeldConcat(s[..i], [c] + s[i + 1..]);
    HeldConcat([s[i]], s[i + 1..]);
    HeldConcat([c], s[i + 1..]);
    HeldOne(s[i]);
    HeldOne(c);
  }

  /** A full sequence holds as many items as it has slots; any other holds fewer. */
  lemma {:induction false} HeldCount(s: seq<Content>)
    ensures |HeldIn(s)| == |s| <==> forall i :: 0 <= i < |s| ==> s[i].Some?
  {
    if s != [] {
      HeldCount(s[1..]);
      assert forall i :: 0 <= i < |s[1..]| ==> s[1..][i] == s[i + 1];
      if forall i :: 0 <= i < |s[1..]| ==> s[1..][i].Some? {
        assert forall i :: 1 <= i < |s| ==> s[i] == s[1..][i - 1];
      }
    }
  }

  // ---- enhancements ----

  datatype Enhancement = Enhancement(goods: Goods, slotIdx: nat, used: bool) {
    function Content(): Content {
      if used then Some(goods) else None
    }
  }

  type Tray = seq<Enhancement>

  function TrayContents(t: Tray): (s: seq<Content>)
    ensures |s| == |t|
  {
    seq(|t|, i requires 0 <= i < |t| => t[i].Content())
  }

  function Carried(t: Tray): (m: multiset<Goods>)
    ensures |m| <= |t|
  {
    HeldIn(TrayContents(t))
  }

  function FreeSlots(t: Tray): nat {
    |t| - |Carried(t)|
  }

  function FirstFree(t: Tray): (i: nat)
    ensures i <= |t| && (i < |t| ==> !t[i].used) && forall j :: 0 <= j < i ==> t[j].used
  {
    if t == [] || !t[0].used then 0 else 1 + FirstFree(t[1..])
  }

  function Added(t: Tray, e: Enhancement): (t': Tray)
    ensures |t'| == |t|
  {
    var i := FirstFree(t);
    if i == |t| then t else t[i := e.(slotIdx := i, used := true)]
  }

  function Trashed(t: Tray, i: nat): (t': Tray)
    requires i < |t|
    ensures |t'| == |t|
  {
    t[i := Enhancement(NO_GOODS, i, false)]
  }

  lemma TrayUpdate(t: Tray, i: nat, e: Enhancement)
    requires i < |t|
    ensures Carried(t[i := e]) + One(t[i].Content()) == Carried(t) + One(e.Content())
  {
    assert TrayContents(t[i := e]) == TrayContents(t)[i := e.Content()];
    HeldUpdate(TrayContents(t), i, e.Content());
  }

  lemma NoneFree(t: Tray)
    ensures FirstFree(t) == |t| <==> FreeSlots(t) == 0
  {
    HeldCount(TrayContents(t));
    if FreeSlots(t) == 0 {
      forall i | 0 <= i < |t|
        ensures t[i].used
      {
        assert TrayContents(t)[i].Some?;
      }
    }
  }

  /** An added enhancement is carried exactly if there was a free slot; otherwise nothing changes. */
  lemma AddedCarries(t: Tray, e: Enhancement)
    ensures FreeSlots(t) > 0 ==>
            Carried(Added(t, e)) == Carried(t) + multiset{e.goods} && FreeSlots(Added(t, e)) == FreeSlots(t) - 1
    ensures FreeSlots(t) == 0 ==> Added(t, e) == t
  {
    NoneFree(t);
    var i := FirstFree(t);
    if i < |t| { TrayUpdate(t, i, e.(slotIdx := i, used := true)); }
  }

  lemma TrashedCarries(t: Tray, i: nat)
    requires i < |t|
    ensures Carried(Trashed(t, i)) + One(t[i].Content()) == Carried(t)
  {
    TrayUpdate(t, i, Enhancement(NO_GOODS, i, false));
  }

  // ---- inspirations ----

  datatype Inspiration = Inspiration(goods: Goods, col: nat, row: nat, has: bool) {
    function Content(): Content {
      if has then Some(goods) else None
    }
  }

  type Column = seq<Inspiration>

  /** The stored grid, column by column; a character uses its first cols columns and rows rows. */
  type Grid = seq<Column>

  predicate InGrid(g: Grid, cols: nat, rows: nat) {
    cols <= |g| && forall c :: 0 <= c < cols ==> rows <= |g[c]|
  }

  function ColumnContents(s: Column): (r: seq<Content>)
    ensures |r| == |s|
  {
    seq(|s|, i requires 0 <= i < |s| => s[i].Content())
  }

  function Stocked(g: Grid, cols: nat, rows: nat): multiset<Goods>
    requires InGrid(g, cols, rows)
  {
    if cols == 0 then multiset{} else Stocked(g, cols - 1, rows) + HeldIn(ColumnContents(g[cols - 1][..rows]))
  }

  function FreeCells(g: Grid, cols: nat, rows: nat): nat
    requires InGrid(g, cols, rows)
  {
    if cols == 0 then 0 else FreeCells(g, cols - 1, rows) + (rows - |HeldIn(ColumnContents(g[cols - 1][..rows]))|)
  }

  lemma OneColumnMore(cols: int, rows: int)
    ensures cols * rows == (cols - 1) * rows + rows
  {
  }

  lemma {:induction false} CellsCounted(g: Grid, cols: nat, rows: nat)
    requires InGrid(g, cols, rows)
    ensures |Stocked(g, cols, rows)| + FreeCells(g, cols, rows) == cols * rows
  {
    hide HeldIn, ColumnContents;
    if cols > 0 {
      CellsCounted(g, cols - 1, rows);
      OneColumnMore(cols, rows);
    }
  }

  function SetCell(g: Grid, c: nat, r: nat, x: Inspiration): (g': Grid)
    requires c < |g| && r < |g[c]|
    ensures |g'| == |g| && forall k :: 0 <= k < |g| ==> |g'[k]| == |g[k]|
  {
    g[c := g[c][r := x]]
  }

  lemma ColumnUpdate(s: Column, rows: nat, r: nat, x: Inspiration)
    requires r < |s| && rows <= |s|
    ensures r < rows ==>
            HeldIn(ColumnContents(s[r := x][..rows])) + One(s[r].Content())
                == HeldIn(ColumnContents(s[..rows])) + One(x.Content())
    ensures r >= rows ==> s[r := x][..rows] == s[..rows]
  {
    if r < rows {
      assert ColumnContents(s[r := x][..rows]) == ColumnContents(s[..rows])[r := x.Content()];
      HeldUpdate(ColumnContents(s[..rows]), r, x.Content());
    }
  }

  /** Changing a counted cell exchanges its content; changing any other cell does not matter. */
  lemma {:induction false} StockedUpdate(g: Grid, cols: nat, rows: nat, c: nat, r: nat, x: Inspiration)
    requires InGrid(g, cols, rows) && c < |g| && r < |g[c]|
    ensures InGrid(SetCell(g, c, r, x), cols, rows)
    ensures var g' := SetCell(g, c, r, x);
            if c < cols && r < rows
            then Stocked(g', cols, rows) + One(g[c][r].Content()) == Stocked(g, cols, rows) + One(x.Content())
            else Stocked(g', cols, rows) == Stocked(g, cols, rows)
  {
    hide HeldIn, ColumnContents, One;
    if cols > 0 {
      var g' := SetCell(g, c, r, x);
      StockedUpdate(g, cols - 1, rows, c, r, x);
      var front, front' := Stocked(g, cols - 1, rows), Stocked(g', cols - 1, rows);
      var last, last' := HeldIn(ColumnContents(g[cols - 1][..rows])), HeldIn(ColumnContents(g'[cols - 1][..rows]));
      if c == cols - 1 {
        ColumnUpdate(g[c], rows, r, x);
        assert front' == front;
        if r < rows { Exchange(last, last', front, One(g[c][r].Content()), One(x.Content())); }
      } else {
        assert g'[cols - 1] == g[cols - 1];
        if c < cols && r < rows { Exchange(front, front', last, One(g[c][r].Content()), One(x.Content())); }
      }
    }
  }

  lemma Exchange<T>(a: multiset<T>, b: multiset<T>, rest: multiset<T>, gone: multiset<T>, come: multiset<T>)
    requires b + gone == a + come
    ensures (b + rest) + gone == (a + rest) + come && (rest + b) + gone == (rest + a) + come
  {
    assert (b + rest) + gone == (b + gone) + rest;
    assert (a + rest) + come == (a + come) + rest;
    assert rest + b == b + rest && rest + a == a + rest;
  }

  // ---- finding room, adding, removing, moving inspirations ----

  datatype Cell = Cell(col: nat, row: nat)

  /** The first empty cell, row by row, from a given one on. */
  function FreeCell(g: Grid, cols: nat, rows: nat, row: nat, col: nat): (r: Option<Cell>)
    requires InGrid(g, cols, rows) && row <= rows && col <= cols
    ensures r.Some? ==> r.value.col < cols && r.value.row < rows && !g[r.value.col][r.value.row].has
    ensures r.None? ==> forall i, j :: 0 <= i < cols && row <= j < rows && (j > row || i >= col) ==> g[i][j].has
    decreases rows - row, cols - col
  {
    if row == rows then None
    else if col == cols then FreeCell(g, cols, rows, row + 1, 0)
    else if !g[col][row].has then Some(Cell(col, row))
    else FreeCell(g, cols, rows, row, col + 1)
  }

  function Received(g: Grid, cols: nat, rows: nat, x: Inspiration): (g': Grid)
    requires InGrid(g, cols, rows)
  {
    var f := FreeCell(g, cols, rows, 0, 0);
    if f.None? then g else SetCell(g, f.value.col, f.value.row, x.(col := f.value.col, row := f.value.row, has := true))
  }

  predicate FullColumn(s: Column, rows: nat)
    requires rows <= |s|
  {
    forall j :: 0 <= j < rows ==> s[j].has
  }

  lemma ColumnCount(s: Column, rows: nat)
    requires rows <= |s|
    ensures |HeldIn(ColumnContents(s[..rows]))| == rows <==> FullColumn(s, rows)
  {
    var t := ColumnContents(s[..rows]);
    HeldCount(t);
    assert forall j :: 0 <= j < rows ==> t[j].Some? == s[j].has;
  }

  lemma {:induction false} NoFreeCell(g: Grid, cols: nat, rows: nat)
    requires InGrid(g, cols, rows)
    ensures FreeCells(g, cols, rows) == 0 <==> forall i :: 0 <= i < cols ==> FullColumn(g[i], rows)
  {
    hide HeldIn, ColumnContents, FullColumn;
    if cols > 0 {
      NoFreeCell(g, cols - 1, rows);
      ColumnCount(g[cols - 1], rows);
    }
  }

  /** An added inspiration is carried exactly if there was a free cell; otherwise nothing changes. */
  lemma ReceivedStocks(g: Grid, cols: nat, rows: nat, x: Inspiration)
    requires InGrid(g, cols, rows)
    ensures var g' := Received(g, cols, rows, x);
            && InGrid(g', cols, rows)
            && (FreeCells(g, cols, rows) > 0 ==>
                 Stocked(g', cols, rows) == Stocked(g, cols, rows) + multiset{x.goods}
                     && FreeCells(g', cols, rows) == FreeCells(g, cols, rows) - 1)
            && (FreeCells(g, cols, rows) == 0 ==> g' == g)
  {
    hide HeldIn, Stocked, FreeCells;
    NoFreeCell(g, cols, rows);
    var f := FreeCell(g, cols, rows, 0, 0);
    if f.Some? {
      var y := x.(col := f.value.col, row := f.value.row, has := true);
      StockedUpdate(g, cols, rows, f.value.col, f.value.row, y);
      var g' := Received(g, cols, rows, x);
      assert Stocked(g', cols, rows) + multiset{} == Stocked(g', cols, rows);
      CellsCounted(g, cols, rows);
      CellsCounted(g', cols, rows);
    }
  }

  /** Replacing a counted column exchanges what it holds. */
  lemma {:induction false} StockedColumn(g: Grid, cols: nat, rows: nat, c: nat, s: Column, gone: multiset<Goods>,
      come: multiset<Goods>)
    requires InGrid(g, cols, rows) && c < cols && |s| == |g[c]|
    requires HeldIn(ColumnContents(s[..rows])) + gone == HeldIn(ColumnContents(g[c][..rows])) + come
    ensures InGrid(g[c := s], cols, rows) && Stocked(g[c := s], cols, rows) + gone == Stocked(g, cols, rows) + come
  {
    hide HeldIn, ColumnContents;
    var g' := g[c := s];
    var front, last := Stocked(g, cols - 1, rows), HeldIn(ColumnContents(g[cols - 1][..rows]));
    if c == cols - 1 {
      OtherColumns(g, cols - 1, rows, c, s);
      Exchange(last, HeldIn(ColumnContents(s[..rows])), front, gone, come);
    } else {
      StockedColumn(g, cols - 1, rows, c, s, gone, come);
      assert g'[cols - 1] == g[cols - 1];
      Exchange(front, Stocked(g', cols - 1, rows), last, gone, come);
    }
  }

  lemma {:induction false} OtherColumns(g: Grid, cols: nat, rows: nat, c: nat, s: Column)
    requires InGrid(g, cols, rows) && cols <= c < |g|
    ensures InGrid(g[c := s], cols, rows) && Stocked(g[c := s], cols, rows) == Stocked(g, cols, rows)
  {
    hide HeldIn, ColumnContents;
    if cols > 0 { OtherColumns(g, cols - 1, rows, c, s); }
  }

  const NO_INSPIRATION := Inspiration(NO_GOODS, 0, 0, false)

  /** The inspirations behind a removed one move up by a row. */
  function RemovedColumn(s: Column, c: nat, r: nat, rows: nat): (s': Column)
    requires r < rows <= |s|
    ensures |s'| == |s|
  {
    s[..r] + ShiftedUp(s, c, r, rows) + [NO_INSPIRATION.(col := c, row := rows - 1)] + s[rows..]
  }

  function ShiftedUp(s: Column, c: nat, r: nat, rows: nat): (t: Column)
    requires r < rows <= |s|
    ensures |t| == rows - 1 - r
  {
    seq(rows - 1 - r, k requires 0 <= k < rows - 1 - r => s[r + 1 + k].(col := c, row := r + k))
  }

  function Removed(g: Grid, c: nat, r: nat, rows: nat): (g': Grid)
    requires c < |g| && r < |g[c]| && rows <= |g[c]|
    ensures |g'| == |g| && forall k :: 0 <= k < |g| ==> |g'[k]| == |g[k]|
  {
    if r < rows then g[c := RemovedColumn(g[c], c, r, rows)]
    else SetCell(g, c, r, NO_INSPIRATION.(col := c, row := r))
  }

  function EmptiedColumn(s: Column, c: nat, r: nat, rows: nat): (s': Column)
    requires r < rows <= |s|
    ensures |s'| == |s|
  {
    s[..r] + seq(rows - r, k requires 0 <= k < rows - r => NO_INSPIRATION.(col := c, row := r + k)) + s[rows..]
  }

  /** Beyond the last column a removal does not move the cells behind it: each of them is removed as well. */
  function RemovedAt(g: Grid, cols: nat, c: nat, r: nat, rows: nat): (g': Grid)
    requires c < |g| && r < |g[c]| && rows <= |g[c]|
    ensures |g'| == |g| && forall k :: 0 <= k < |g| ==> |g'[k]| == |g[k]|
  {
    if c > cols && r < rows then g[c := EmptiedColumn(g[c], c, r, rows)] else Removed(g, c, r, rows)
  }

  /** A removal outside the counted columns leaves the counted stock alone. */
  lemma RemovedOutside(g: Grid, cols: nat, rows: nat, c: nat, r: nat)
    requires InGrid(g, cols, rows) && cols <= c < |g| && r < |g[c]| && rows <= |g[c]|
    ensures var g' := RemovedAt(g, cols, c, r, rows);
            InGrid(g', cols, rows) && Stocked(g', cols, rows) == Stocked(g, cols, rows)
  {
    OtherColumns(g, cols, rows, c, RemovedAt(g, cols, c, r, rows)[c]);
  }

  lemma RemovedColumnHolds(s: Column, c: nat, r: nat, rows: nat)
    requires r < rows <= |s|
    ensures HeldIn(ColumnContents(RemovedColumn(s, c, r, rows)[..rows])) + One(s[r].Content())
            == HeldIn(ColumnContents(s[..rows]))
  {
    var t, t' := ColumnContents(s[..rows]), ColumnContents(RemovedColumn(s, c, r, rows)[..rows]);
    var front, back := t[..r], t[r + 1..];
    assert t' == front + (back + [None]);
    assert t == front + ([t[r]] + back);
    HeldConcat(front, back + [None]);
    HeldConcat(back, [None]);
    HeldConcat(front, [t[r]] + back);
    HeldConcat([t[r]], back);
    HeldOne(None);
    HeldOne(t[r]);
  }

  /** Removing takes out exactly one inspiration and leaves other columns, and the rows in front, as they were. */
  lemma RemovedStocks(g: Grid, cols: nat, rows: nat, c: nat, r: nat)
    requires InGrid(g, cols, rows) && c < cols && r < rows
    ensures var g' := Removed(g, c, r, rows);
            && InGrid(g', cols, rows)
            && Stocked(g', cols, rows) + One(g[c][r].Content()) == Stocked(g, cols, rows)
            && (forall i, j :: 0 <= i < |g| && 0 <= j < |g[i]| && (i != c || j < r) ==> g'[i][j] == g[i][j])
            && (forall j :: r <= j < rows - 1 ==> g'[c][j].Content() == g[c][j + 1].Content())
  {
    hide HeldIn, ColumnContents, Stocked, RemovedColumn, One;
    RemovedColumnHolds(g[c], c, r, rows);
    StockedColumn(g, cols, rows, c, RemovedColumn(g[c], c, r, rows), One(g[c][r].Content()), multiset{});
    RemovedCells(g[c], c, r, rows);
  }

  /** The rows in front stay, and those behind move up. */
  lemma RemovedCells(s: Column, c: nat, r: nat, rows: nat)
    requires r < rows <= |s|
    ensures var t := RemovedColumn(s, c, r, rows);
            && (forall j :: 0 <= j < r ==> t[j] == s[j])
            && (forall j :: r <= j < rows - 1 ==> t[j].Content() == s[j + 1].Content())
  {
  }

  /** Two cells exchanged, with their positions put right. */
  function Moved(g: Grid, sc: nat, sr: nat, dc: nat, dr: nat): (g': Grid)
    requires sc < |g| && sr < |g[sc]| && dc < |g| && dr < |g[dc]|
    ensures |g'| == |g| && forall k :: 0 <= k < |g| ==> |g'[k]| == |g[k]|
  {
    var src, dest := g[sc][sr], g[dc][dr];
    SetCell(SetCell(g, sc, sr, dest.(col := sc, row := sr)), dc, dr, src.(col := dc, row := dr))
  }

  /** Moving keeps the stock exactly if both cells are counted ones, or the cells are alike. */
  lemma MovedStocks(g: Grid, cols: nat, rows: nat, sc: nat, sr: nat, dc: nat, dr: nat)
    requires InGrid(g, cols, rows) && sc < cols && sr < rows && dc < |g| && dr < |g[dc]|
    ensures InGrid(Moved(g, sc, sr, dc, dr), cols, rows)
    ensures Stocked(Moved(g, sc, sr, dc, dr), cols, rows) == Stocked(g, cols, rows)
            <==> (dc < cols && dr < rows) || g[sc][sr].Content() == g[dc][dr].Content()
  {
    hide HeldIn, ColumnContents, Stocked, One;
    var src, dest := g[sc][sr], g[dc][dr];
    var a, b := dest.(col := sc, row := sr), src.(col := dc, row := dr);
    var g1 := SetCell(g, sc, sr, a);
    StockedUpdate(g, cols, rows, sc, sr, a);
    StockedUpdate(g1, cols, rows, dc, dr, b);
    var s0, s1, s2 := Stocked(g, cols, rows), Stocked(g1, cols, rows), Stocked(Moved(g, sc, sr, dc, dr), cols, rows);
    if dc < cols && dr < rows {
      assert a.Content() == dest.Content() && b.Content() == src.Content();
      assert g1[dc][dr].Content() == dest.Content();
      Cancel(s0, s2, One(dest.Content()));
    } else {
      if s2 == s0 { OneInjective(s0, src.Content(), dest.Content()); }
      Cancel(s0, s2, One(src.Content()));
    }
  }

  lemma Cancel<T>(a: multiset<T>, b: multiset<T>, c: multiset<T>)
    ensures a + c == b + c ==> a == b
  {
    if a + c == b + c {
      forall x
        ensures a[x] == b[x]
      {
        assert (a + c)[x] == (b + c)[x];
      }
    }
  }

  lemma OneInjective(s: multiset<Goods>, a: Content, b: Content)
    requires s + One(a) == s + One(b)
    ensures a == b
  {
    assert One(a) + s == s + One(a) && One(b) + s == s + One(b);
    Cancel(One(a), One(b), s);
    if a.Some? { assert a.value in One(b); }
    if b.Some? { assert b.value in One(a); }
  }

  // ---- the character's own object ----

  const TRAY_SIZE: nat := 10

  class CharacterData {
    const enhancements: array<Enhancement>
    var inspirations: Grid
    var maxCols: nat
    var maxRows: nat
    var influence: u32
    var hasUpdatedPowers: bool

    predicate Valid()
      reads this
    {
      enhancements.Length == TRAY_SIZE && InGrid(inspirations, maxCols, maxRows)
    }

    ghost function Tray(): Tray
      reads enhancements
    {
      enhancements[..]
    }

    method AddEnhancement(enh: Enhancement)
      requires Valid()
      modifies enhancements, this`hasUpdatedPowers
      ensures Tray() == Added(old(Tray()), enh)
    {
      FirstFreeIs(Tray());
      for idx := 0 to enhancements.Length
        invariant Tray() == old(Tray())
        invariant forall j :: 0 <= j < idx ==> enhancements[j].used
      {
        if !enhancements[idx].used {
          FirstFreeAt(Tray(), idx);
          enhancements[idx] := enh.(slotIdx := idx, used := true);
          hasUpdatedPowers := true;
          return;
        }
      }
    }

    method GetEnhancement(idx: nat) returns (e: Option<Enhancement>)
      ensures e == EnhancementAt(Tray(), idx)
    {
      if idx >= enhancements.Length {
        return None;
      }
      var enh := enhancements[idx];
      if !enh.used {
        return None;
      }
      return Some(enh);
    }

    method NumberEnhancements() returns (count: nat)
      ensures count == |Carried(Tray())|
    {
      hide HeldIn;
      ghost var t := TrayContents(Tray());
      count := 0;
      assert t[..0] == [] && HeldIn([]) == multiset{} by { HeldNone(); }
      for i := 0 to enhancements.Length
        invariant count == |HeldIn(t[..i])|
      {
        HeldMore(t, i);
        if enhancements[i].used { count := count + 1; }
      }
      assert t[..enhancements.Length] == t;
    }

    method TrashEnhancement(idx: nat)
      requires idx < enhancements.Length
      modifies enhancements, this`hasUpdatedPowers
      ensures Tray() == Trashed(old(Tray()), idx)
    {
      enhancements[idx] := Enhancement(NO_GOODS, idx, false);
      hasUpdatedPowers := true;
    }

    method AddInspiration(insp: Inspiration)
      requires Valid()
      modifies this`inspirations, this`hasUpdatedPowers
      ensures Valid() && inspirations == Received(old(inspirations), maxCols, maxRows, insp)
    {
      ghost var g := inspirations;
      for row := 0 to maxRows
        invariant inspirations == g && FreeCell(g, maxCols, maxRows, row, 0) == FreeCell(g, maxCols, maxRows, 0, 0)
      {
        for col := 0 to maxCols
          invariant inspirations == g && FreeCell(g, maxCols, maxRows, row, col) == FreeCell(g, maxCols, maxRows, 0, 0)
        {
          if !inspirations[col][row].has {
            inspirations := SetCell(inspirations, col, row, insp.(col := col, row := row, has := true));
            hasUpdatedPowers := true;
            return;
          }
        }
      }
    }

    method GetInspiration(col: nat, row: nat) returns (i: Option<Inspiration>)
      requires Valid()
      ensures i == InspirationAt(inspirations, maxCols, maxRows, col, row)
    {
      if col >= maxCols {
        return None;
      }
      if row >= maxRows {
        return None;
      }
      var insp := inspirations[col][row];
      if !insp.has {
        return None;
      }
      return Some(insp);
    }

    method NumberInspirations() returns (count: nat)
      requires Valid()
      ensures count == |Stocked(inspirations, maxCols, maxRows)|
    {
      hide HeldIn, ColumnContents;
      count := 0;
      NoRows(inspirations, maxCols);
      for row := 0 to maxRows
        invariant count == |Stocked(inspirations, maxCols, row)|
      {
        hide Stocked;
        RowAdds(inspirations, maxCols, row);
        for col := 0 to maxCols
          invariant count == |Stocked(inspirations, maxCols, row)| + InRow(inspirations, col, row)
        {
          if inspirations[col][row].has { count := count + 1; }
        }
      }
    }

    /** Exchanges two cells; a destination beyond the maximum, but not one right at it, removes the inspiration. */
    method MoveInspiration(sc: nat, sr: nat, dc: nat, dr: nat)
      requires Valid() && sc < |inspirations| && sr < |inspirations[sc]|
      requires if dc > maxCols || dr > maxRows then maxRows <= |inspirations[sc]|
               else dc < |inspirations| && dr < |inspirations[dc]|
      modifies this`inspirations, this`hasUpdatedPowers
      ensures Valid()
      ensures dc > maxCols || dr > maxRows ==> inspirations == RemovedAt(old(inspirations), maxCols, sc, sr, maxRows)
      ensures !(dc > maxCols || dr > maxRows) ==> inspirations == Moved(old(inspirations), sc, sr, dc, dr)
      decreases if sr < maxRows then maxRows - sr else 0, 1
    {
      if dc > maxCols || dr > maxRows {
        RemoveInspiration(sc, sr);
        return;
      }
      var src, dest := inspirations[sc][sr], inspirations[dc][dr];
      inspirations := SetCell(SetCell(inspirations, sc, sr, dest.(col := sc, row := sr)), dc, dr,
          src.(col := dc, row := dr));
      hasUpdatedPowers := true;
    }

    method RemoveInspiration(col: nat, row: nat)
      requires Valid() && col < |inspirations| && row < |inspirations[col]| && maxRows <= |inspirations[col]|
      modifies this`inspirations, this`hasUpdatedPowers
      ensures Valid() && inspirations == RemovedAt(old(inspirations), maxCols, col, row, maxRows)
      decreases if row < maxRows then maxRows - row else 0, 0
    {
      hide SetCell, Removed, RemovedAt, Moved, RemovedUpTo;
      ghost var g := inspirations;
      FirstStage(g, maxCols, col, row, maxRows);
      inspirations := SetCell(inspirations, col, row, NO_INSPIRATION.(col := col, row := row));
      var j := row;
      while j < maxRows
        invariant row <= j && Valid() && maxRows == old(maxRows) && maxCols == old(maxCols)
        invariant row < maxRows ==> j < maxRows
        invariant row >= maxRows ==> j == row
        invariant inspirations == RemovedUpTo(g, maxCols, col, row, maxRows, j)
        decreases maxRows - j
      {
        if j + 1 >= maxRows {
          break;
        }
        NextStage(g, maxCols, col, row, maxRows, j);
        MoveInspiration(col, j + 1, col, j);
        j := j + 1;
      }
      LastStage(g, maxCols, col, row, maxRows, j);
      hasUpdatedPowers := true;
    }
  }

  /** The grid when the loop of a removal has come to row j. */
  ghost function RemovedUpTo(g: Grid, cols: nat, c: nat, r: nat, rows: nat, j: nat): (g': Grid)
    requires c < |g| && r < |g[c]| && rows <= |g[c]| && r <= j && (r < rows ==> j < rows)
    ensures |g'| == |g| && forall k :: 0 <= k < |g| ==> |g'[k]| == |g[k]|
  {
    if r >= rows then Removed(g, c, r, rows)
    else if c <= cols then Removed(g, c, r, j + 1)
    else if j == r then SetCell(g, c, r, NO_INSPIRATION.(col := c, row := r))
    else RemovedAt(g, cols, c, r, rows)
  }

  lemma FirstStage(g: Grid, cols: nat, c: nat, r: nat, rows: nat)
    requires c < |g| && r < |g[c]| && rows <= |g[c]|
    ensures SetCell(g, c, r, NO_INSPIRATION.(col := c, row := r)) == RemovedUpTo(g, cols, c, r, rows, r)
  {
    if r < rows { FirstRemoved(g, c, r); }
  }

  lemma NextStage(g: Grid, cols: nat, c: nat, r: nat, rows: nat, j: nat)
    requires c < |g| && r < |g[c]| && rows <= |g[c]| && r <= j && j + 1 < rows
    ensures var now, next := RemovedUpTo(g, cols, c, r, rows, j), RemovedUpTo(g, cols, c, r, rows, j + 1);
            next == if c > cols then RemovedAt(now, cols, c, j + 1, rows) else Moved(now, c, j + 1, c, j)
  {
    hide SetCell, Removed, RemovedAt, Moved;
    if c <= cols { NextRemoved(g, c, r, j); } else { RestRemoved(g, cols, c, r, j, rows); }
  }

  lemma LastStage(g: Grid, cols: nat, c: nat, r: nat, rows: nat, j: nat)
    requires c < |g| && r < |g[c]| && rows <= |g[c]| && r <= j && (r < rows ==> j + 1 == rows)
    ensures RemovedUpTo(g, cols, c, r, rows, j) == RemovedAt(g, cols, c, r, rows)
  {
    if c > cols && j == r && r < rows { LastRemoved(g, cols, c, r); }
  }

  /** Removing the cell behind empties the rest of the column, at the first turn and again at each later one. */
  lemma RestRemoved(g: Grid, cols: nat, c: nat, r: nat, j: nat, rows: nat)
    requires cols < c < |g| && r <= j && j + 1 < rows <= |g[c]|
    ensures RemovedAt(SetCell(g, c, r, NO_INSPIRATION.(col := c, row := r)), cols, c, r + 1, rows)
            == RemovedAt(g, cols, c, r, rows)
    ensures RemovedAt(RemovedAt(g, cols, c, r, rows), cols, c, j + 1, rows) == RemovedAt(g, cols, c, r, rows)
  {
    var s, t := g[c], EmptiedColumn(g[c], c, r, rows);
    assert EmptiedColumn(s[r := NO_INSPIRATION.(col := c, row := r)], c, r + 1, rows) == t;
    assert EmptiedColumn(t, c, j + 1, rows) == t;
  }

  lemma LastRemoved(g: Grid, cols: nat, c: nat, r: nat)
    requires cols < c < |g| && r < |g[c]|
    ensures RemovedAt(g, cols, c, r, r + 1) == SetCell(g, c, r, NO_INSPIRATION.(col := c, row := r))
  {
    assert EmptiedColumn(g[c], c, r, r + 1) == g[c][r := NO_INSPIRATION.(col := c, row := r)];
  }

  lemma FirstRemoved(g: Grid, c: nat, r: nat)
    requires c < |g| && r < |g[c]|
    ensures Removed(g, c, r, r + 1) == SetCell(g, c, r, NO_INSPIRATION.(col := c, row := r))
  {
    assert RemovedColumn(g[c], c, r, r + 1) == g[c][r := NO_INSPIRATION.(col := c, row := r)];
  }

  /** The empty cell moves one row on. */
  lemma NextRemoved(g: Grid, c: nat, r: nat, j: nat)
    requires c < |g| && r <= j && j + 1 < |g[c]|
    ensures Moved(Removed(g, c, r, j + 1), c, j + 1, c, j) == Removed(g, c, r, j + 2)
  {
    var s, t, t' := g[c], RemovedColumn(g[c], c, r, j + 1), RemovedColumn(g[c], c, r, j + 2);
    var u := t[j + 1 := t[j].(col := c, row := j + 1)][j := t[j + 1].(col := c, row := j)];
    assert u == t';
    assert Moved(Removed(g, c, r, j + 1), c, j + 1, c, j) == g[c := u];
  }

  lemma {:induction false} FirstFreeAt(t: Tray, i: nat)
    requires i < |t| && !t[i].used && forall j :: 0 <= j < i ==> t[j].used
    ensures FirstFree(t) == i
  {
    if i > 0 { FirstFreeAt(t[1..], i - 1); }
  }

  lemma FirstFreeIs(t: Tray)
    ensures (forall j :: 0 <= j < |t| ==> t[j].used) ==> FirstFree(t) == |t|
  {
  }

  function EnhancementAt(t: Tray, idx: nat): Option<Enhancement> {
    if idx < |t| && t[idx].used then Some(t[idx]) else None
  }

  function InspirationAt(g: Grid, cols: nat, rows: nat, col: nat, row: nat): Option<Inspiration>
    requires InGrid(g, cols, rows)
  {
    if col < cols && row < rows && g[col][row].has then Some(g[col][row]) else None
  }

  lemma HeldSnoc(s: seq<Content>, i: nat)
    requires i < |s|
    ensures HeldIn(s[..i + 1]) == HeldIn(s[..i]) + One(s[i])
  {
    assert s[..i + 1] == s[..i] + [s[i]];
    HeldConcat(s[..i], [s[i]]);
    HeldOne(s[i]);
  }

  lemma HeldNone()
    ensures HeldIn([]) == multiset{}
  {
  }

  lemma HeldMore(s: seq<Content>, i: nat)
    requires i < |s|
    ensures |HeldIn(s[..i + 1])| == |HeldIn(s[..i])| + if s[i].Some? then 1 else 0
  {
    HeldSnoc(s, i);
  }

  function InRow(g: Grid, cols: nat, row: nat): nat
    requires cols <= |g| && forall c :: 0 <= c < cols ==> row < |g[c]|
  {
    if cols == 0 then 0 else InRow(g, cols - 1, row) + if g[cols - 1][row].has then 1 else 0
  }

  lemma {:induction false} RowAdds(g: Grid, cols: nat, row: nat)
    requires InGrid(g, cols, row + 1)
    ensures |Stocked(g, cols, row + 1)| == |Stocked(g, cols, row)| + InRow(g, cols, row)
  {
    hide HeldIn, ColumnContents;
    if cols > 0 {
      RowAdds(g, cols - 1, row);
      ColumnAdds(g[cols - 1], row);
    }
  }

  lemma ColumnAdds(s: Column, row: nat)
    requires row < |s|
    ensures |HeldIn(ColumnContents(s[..row + 1]))| == |HeldIn(ColumnContents(s[..row]))| + if s[row].has then 1 else 0
  {
    var t := ColumnContents(s[..row + 1]);
    HeldSnoc(t, row);
    assert t[..row + 1] == t && t[..row] == ColumnContents(s[..row]);
  }

  lemma {:induction false} NoRows(g: Grid, cols: nat)
    requires cols <= |g|
    ensures Stocked(g, cols, 0) == multiset{}
  {
    if cols > 0 {
      NoRows(g, cols - 1);
      assert ColumnContents(g[cols - 1][..0]) == [];
    }
  }
}
