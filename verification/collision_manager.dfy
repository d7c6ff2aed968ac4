/** The board: the fixed border geometry and the settled cells of locked pieces,
    with the line-clear and gravity-compaction pass run after every lock.

    Settled cells are kept as the sequence of plotted pixels, in plotting order
    (colours are dropped); the sequence may be empty and may hold repeats. */
module CollisionManager {
  import opened Grid

  /** Column of the left wall, column of the right wall and row of the floor. */
  const LeftWall: int := 0
  const RightWall: int := 11
  const FloorRow: int := 20

  /** The playable columns, inclusive at both ends. */
  const FirstColumn: int := 1
  const LastColumn: int := 10

  // ---------------------------------------------------------------------------
  // Borders
  // ---------------------------------------------------------------------------

  /** `p` lies in the rectangle with top-left corner `pos` and size `width` x `height`. */
  predicate InRect(pos: Vec2D, width: int, height: int, p: Vec2D) {
    pos.x <= p.x < pos.x + width && pos.y <= p.y < pos.y + height
  }

  /** The cells of a one-wide column: `pos` and the `height - 1` cells below it, top to bottom. */
  function ColumnCells(pos: Vec2D, height: nat): (r: seq<Vec2D>)
    ensures |r| == height
    ensures forall p :: p in r <==> InRect(pos, 1, height, p)
  {
    var r := seq(height, i requires 0 <= i < height => Vec2D(pos.x, pos.y + i));
    assert forall p :: InRect(pos, 1, height, p) ==> r[p.y - pos.y] == p;
    r
  }

  /** The cells of a one-high row: `pos` and the `width - 1` cells to its right, left to right. */
  function RowCells(pos: Vec2D, width: nat): (r: seq<Vec2D>)
    ensures |r| == width
    ensures forall p :: p in r <==> InRect(pos, width, 1, p)
  {
    var r := seq(width, i requires 0 <= i < width => Vec2D(pos.x + i, pos.y));
    assert forall p :: InRect(pos, width, 1, p) ==> r[p.x - pos.x] == p;
    r
  }

  /** The border geometry described in closed form: two 21-cell walls and a floor between them. */
  predicate IsBorder(p: Vec2D) {
    || ((p.x == LeftWall || p.x == RightWall) && 0 <= p.y <= FloorRow)
    || (FirstColumn <= p.x <= LastColumn && p.y == FloorRow)
  }

  /** A cell a settled piece may occupy: one of the ten columns, rows 0 to 19. */
  predicate InPlayfield(p: Vec2D) {
    FirstColumn <= p.x <= LastColumn && 0 <= p.y < FloorRow
  }

  /** Two walls of `height + 1` cells at columns `left` and `right`, and a floor
      across the columns strictly between them on row `height`. */
  function WallsAndFloor(left: int, right: int, height: nat): (r: seq<Vec2D>)
    requires left < right
    ensures |r| == 2 * (height + 1) + (right - left - 1)
    ensures forall p :: p in r <==>
      || ((p.x == left || p.x == right) && 0 <= p.y <= height)
      || (left < p.x < right && p.y == height)
  {
    ColumnCells(Vec2D(left, 0), height + 1)
    + ColumnCells(Vec2D(right, 0), height + 1)
    + RowCells(Vec2D(left + 1, height), right - left - 1)
  }

  /** The walls and the floor of the board, drawn as three one-wide or one-high rectangles. */
  function Borders(): (r: seq<Vec2D>)
    ensures |r| == 52
    ensures forall p :: p in r <==> IsBorder(p)
  {
    WallsAndFloor(LeftWall, RightWall, FloorRow)
  }

  lemma BorderMembership(q: Vec2D)
    ensures q in Borders() <==> IsBorder(q)
  {
  }

  /** No playfield cell is a border cell, and a step left, right or down from a
      playfield cell lands either in the playfield or on a border cell. */
  lemma BordersEnclosePlayfield(p: Vec2D)
    requires InPlayfield(p)
    ensures p !in Borders()
    ensures InPlayfield(p.Add(Vec2D(-1, 0))) || p.Add(Vec2D(-1, 0)) in Borders()
    ensures InPlayfield(p.Add(Vec2D(1, 0))) || p.Add(Vec2D(1, 0)) in Borders()
    ensures InPlayfield(p.Add(Vec2D(0, 1))) || p.Add(Vec2D(0, 1)) in Borders()
  {
    BorderMembership(p);
    BorderMembership(p.Add(Vec2D(-1, 0)));
    BorderMembership(p.Add(Vec2D(1, 0)));
    BorderMembership(p.Add(Vec2D(0, 1)));
  }

  // ---------------------------------------------------------------------------
  // Drawing onto the settled cells
  // ---------------------------------------------------------------------------

  /** Drawing an element appends the cells it plots after the existing ones. */
  function Draw(cells: seq<Vec2D>, plotted: seq<Vec2D>): (r: seq<Vec2D>)
    ensures |r| == |cells| + |plotted|
    ensures r[..|cells|] == cells && r[|cells|..] == plotted
    ensures forall p :: p in r <==> p in cells || p in plotted
  {
    cells + plotted
  }

  // ---------------------------------------------------------------------------
  // Rows
  // ---------------------------------------------------------------------------

  /** Every playable column of row `y` holds a cell. */
  predicate RowFull(cells: seq<Vec2D>, y: int) {
    forall x :: FirstColumn <= x <= LastColumn ==> Vec2D(x, y) in cells
  }

  /** No cell lies in row `y`. */
  predicate RowEmpty(cells: seq<Vec2D>, y: int) {
    forall i :: 0 <= i < |cells| ==> cells[i].y != y
  }

  /** The full rows between `lo` and `hi`, inclusive. */
  function FullRows(cells: seq<Vec2D>, lo: int, hi: int): set<int> {
    set y | lo <= y <= hi && RowFull(cells, y)
  }

  /** The topmost occupied row. */
  function MinY(cells: seq<Vec2D>): (m: int)
    requires |cells| > 0
    ensures forall i :: 0 <= i < |cells| ==> m <= cells[i].y
    ensures exists i :: 0 <= i < |cells| && cells[i].y == m
  {
    if |cells| == 1 then cells[0].y
    else
      var rest := MinY(cells[1..]);
      if cells[0].y <= rest then cells[0].y else rest
  }

  /** The bottommost occupied row. */
  function MaxY(cells: seq<Vec2D>): (m: int)
    requires |cells| > 0
    ensures forall i :: 0 <= i < |cells| ==> cells[i].y <= m
    ensures exists i :: 0 <= i < |cells| && cells[i].y == m
  {
    if |cells| == 1 then cells[0].y
    else
      var rest := MaxY(cells[1..]);
      if cells[0].y >= rest then cells[0].y else rest
  }

  /** The cells satisfying `keep`, in their original order (`Vec::retain`). */
  function Filter(cells: seq<Vec2D>, keep: Vec2D -> bool): (r: seq<Vec2D>)
    ensures |r| <= |cells|
    ensures forall p :: p in r <==> p in cells && keep(p)
  {
    if |cells| == 0 then []
    else (if keep(cells[0]) then [cells[0]] else []) + Filter(cells[1..], keep)
  }

  /** Keeps the cells outside row `y`. */
  function OutsideRow(y: int): Vec2D -> bool {
    (p: Vec2D) => p.y != y
  }

  /** Keeps the cells outside the full rows of `cells` among rows `lo..hi`. */
  function OutsideFullRows(cells: seq<Vec2D>, lo: int, hi: int): Vec2D -> bool {
    (p: Vec2D) => !(lo <= p.y <= hi && RowFull(cells, p.y))
  }

  /** Removing row `y`. */
  function RemoveRow(cells: seq<Vec2D>, y: int): seq<Vec2D> {
    Filter(cells, OutsideRow(y))
  }

  /** The cells that are not in a full row of `cells`: what line clearing keeps. */
  function Kept(cells: seq<Vec2D>): seq<Vec2D> {
    Filter(cells, (p: Vec2D) => !RowFull(cells, p.y))
  }

  // ---------------------------------------------------------------------------
  // Line clearing
  // ---------------------------------------------------------------------------

  /** The new settled cells and the number of rows removed. */
  datatype Cleared = Cleared(cells: seq<Vec2D>, lines: nat)

  /** The row scan: rows `y` to `hi`, top to bottom; a full row is counted and
      removed before the next row is looked at. */
  function RemoveFullRows(cells: seq<Vec2D>, y: int, hi: int): (r: Cleared)
    ensures |r.cells| <= |cells|
    ensures forall p :: p in r.cells ==> p in cells
    ensures r.lines <= if y > hi then 0 else hi + 1 - y
    decreases hi + 1 - y
  {
    if y > hi then Cleared(cells, 0)
    else if RowFull(cells, y) then
      var rest := RemoveFullRows(RemoveRow(cells, y), y + 1, hi);
      Cleared(rest.cells, rest.lines + 1)
    else RemoveFullRows(cells, y + 1, hi)
  }

  /** Moves every cell strictly above row `y` down by one row. */
  function ShiftAbove(cells: seq<Vec2D>, y: int): (r: seq<Vec2D>)
    ensures |r| == |cells|
  {
    seq(|cells|, i requires 0 <= i < |cells| =>
      if cells[i].y < y then Vec2D(cells[i].x, cells[i].y + 1) else cells[i])
  }

  /** The cells after gravity, and the final value of the scan's lower bound. */
  datatype Compacted = Compacted(cells: seq<Vec2D>, minY: int)

  /** The bottom-up gravity pass, at scan row `y` with lower bound `minY`:
      an empty row pulls everything above it down by one, raises `minY` and is
      scanned again; a non-empty row moves the scan one row up. */
  function Compact(cells: seq<Vec2D>, y: int, minY: int): (r: Compacted)
    ensures |r.cells| == |cells|
    ensures r.minY >= minY
    decreases y + 1 - minY
  {
    if y < minY then Compacted(cells, minY)
    else if RowEmpty(cells, y) then Compact(ShiftAbove(cells, y), y, minY + 1)
    else Compact(cells, y - 1, minY)
  }

  /** `t` is `s` after cells moved straight down: same length, same columns,
      no cell higher than before, and rows keep their vertical order (cells
      sharing a row still share one; a row above another stays above it). */
  ghost predicate DownwardImage(s: seq<Vec2D>, t: seq<Vec2D>) {
    && |s| == |t|
    && (forall i :: 0 <= i < |s| ==> t[i].x == s[i].x && s[i].y <= t[i].y)
    && (forall i, j :: 0 <= i < |s| && 0 <= j < |s| && s[i].y < s[j].y ==> t[i].y < t[j].y)
    && (forall i, j :: 0 <= i < |s| && 0 <= j < |s| && s[i].y == s[j].y ==> t[i].y == t[j].y)
  }

  /** Removes every full row, closes the gaps from the bottom up, and returns
      the new cells with the number of rows removed. */
  function ClearFilledLines(cells: seq<Vec2D>): (r: Cleared)
    ensures |cells| == 0 ==> r == Cleared(cells, 0)
    ensures |cells| > 0 ==> r.lines == |FullRows(cells, MinY(cells), MaxY(cells))|
    ensures DownwardImage(Kept(cells), r.cells)
    ensures |cells| > 0 ==> forall i :: 0 <= i < |r.cells| ==> r.cells[i].y <= MaxY(cells)
    ensures |cells| > 0 ==> forall i, row :: 0 <= i < |r.cells| && r.cells[i].y <= row <= MaxY(cells)
                                  ==> !RowEmpty(r.cells, row)
  {
    if |cells| == 0 then Cleared(cells, 0)
    else
      var lo := MinY(cells);
      var hi := MaxY(cells);
      var removed := RemoveFullRows(cells, lo, hi);
      RemoveFullRowsSpec(cells, lo, hi);
      KeptWithinRows(cells, lo, hi);
      FilterWithinRows(cells, OutsideFullRows(cells, lo, hi), lo, hi);
      var compacted := Compact(removed.cells, hi, lo);
      CompactSpec(removed.cells, hi, lo, hi);
      Cleared(compacted.cells, removed.lines)
  }

  /** Drawing an element and clearing lines in one step. */
  function DrawAndClearLines(cells: seq<Vec2D>, plotted: seq<Vec2D>): (r: Cleared)
    ensures |cells + plotted| > 0 ==>
      r.lines == |FullRows(cells + plotted, MinY(cells + plotted), MaxY(cells + plotted))|
    ensures DownwardImage(Kept(cells + plotted), r.cells)
  {
    ClearFilledLines(Draw(cells, plotted))
  }

  // ---------------------------------------------------------------------------
  // Lemmas about filtering
  // ---------------------------------------------------------------------------

  lemma {:induction false} FilterExt(cells: seq<Vec2D>, f: Vec2D -> bool, g: Vec2D -> bool)
    requires forall i :: 0 <= i < |cells| ==> f(cells[i]) == g(cells[i])
    ensures Filter(cells, f) == Filter(cells, g)
  {
    if |cells| > 0 {
      FilterExt(cells[1..], f, g);
    }
  }

  lemma {:induction false} FilterFilter(cells: seq<Vec2D>, f: Vec2D -> bool, g: Vec2D -> bool, h: Vec2D -> bool)
    requires forall i :: 0 <= i < |cells| ==> h(cells[i]) == (f(cells[i]) && g(cells[i]))
    ensures Filter(Filter(cells, f), g) == Filter(cells, h)
  {
    if |cells| > 0 {
      var first, rest := cells[0], cells[1..];
      FilterFilter(rest, f, g, h);
      var fr := Filter(rest, f);
      if f(first) {
        var fc := [first] + fr;
        assert Filter(cells, f) == fc;
        assert fc[0] == first && fc[1..] == fr;
        assert Filter(fc, g) == (if g(first) then [first] else []) + Filter(fr, g);
      } else {
        assert Filter(cells, f) == fr;
      }
    }
  }

  /** Removing row `y` leaves every other row as full or not full as it was. */
  lemma RowFullAfterRemove(cells: seq<Vec2D>, y: int, row: int)
    requires row != y
    ensures RowFull(RemoveRow(cells, y), row) == RowFull(cells, row)
  {
    var c := RemoveRow(cells, y);
    forall x | FirstColumn <= x <= LastColumn
      ensures Vec2D(x, row) in c <==> Vec2D(x, row) in cells
    {
    }
  }

  lemma FullRowsSplit(cells: seq<Vec2D>, y: int, hi: int)
    requires y <= hi
    ensures |FullRows(cells, y, hi)| == (if RowFull(cells, y) then 1 else 0) + |FullRows(cells, y + 1, hi)|
  {
    if RowFull(cells, y) {
      assert FullRows(cells, y, hi) == {y} + FullRows(cells, y + 1, hi);
    } else {
      assert FullRows(cells, y, hi) == FullRows(cells, y + 1, hi);
    }
  }

  /** The row scan keeps exactly the cells outside the full rows of `y..hi`
      of its input, and counts those full rows. */
  lemma {:induction false} RemoveFullRowsSpec(cells: seq<Vec2D>, y: int, hi: int)
    ensures RemoveFullRows(cells, y, hi).cells == Filter(cells, OutsideFullRows(cells, y, hi))
    ensures RemoveFullRows(cells, y, hi).lines == |FullRows(cells, y, hi)|
    decreases hi + 1 - y
  {
    if y > hi {
      FilterExt(cells, OutsideFullRows(cells, y, hi), (p: Vec2D) => true);
      FilterTrue(cells);
      assert FullRows(cells, y, hi) == {};
    } else if RowFull(cells, y) {
      RemoveFullRowsSpec(RemoveRow(cells, y), y + 1, hi);
      FullRowStep(cells, y, hi);
    } else {
      RemoveFullRowsSpec(cells, y + 1, hi);
      FilterExt(cells, OutsideFullRows(cells, y + 1, hi), OutsideFullRows(cells, y, hi));
      FullRowsSplit(cells, y, hi);
    }
  }

  /** Removing a full row `y` first and then the full rows of `y + 1..hi` of
      what remains removes the same cells as removing the full rows of `y..hi`
      at once, and finds one full row fewer. */
  lemma FullRowStep(cells: seq<Vec2D>, y: int, hi: int)
    requires y <= hi && RowFull(cells, y)
    ensures Filter(RemoveRow(cells, y), OutsideFullRows(RemoveRow(cells, y), y + 1, hi))
            == Filter(cells, OutsideFullRows(cells, y, hi))
    ensures |FullRows(RemoveRow(cells, y), y + 1, hi)| + 1 == |FullRows(cells, y, hi)|
  {
    var c := RemoveRow(cells, y);
    var keep := OutsideFullRows(cells, y, hi);
    var keep' := OutsideFullRows(c, y + 1, hi);
    forall i | 0 <= i < |cells|
      ensures keep(cells[i]) == (OutsideRow(y)(cells[i]) && keep'(cells[i]))
    {
      if cells[i].y != y {
        RowFullAfterRemove(cells, y, cells[i].y);
      }
    }
    FilterFilter(cells, OutsideRow(y), keep', keep);
    FullRowsSplit(cells, y, hi);
    forall row | y + 1 <= row <= hi
      ensures RowFull(c, row) == RowFull(cells, row)
    {
      RowFullAfterRemove(cells, y, row);
    }
    assert FullRows(c, y + 1, hi) == FullRows(cells, y + 1, hi);
  }

  lemma FilterWithinRows(cells: seq<Vec2D>, keep: Vec2D -> bool, lo: int, hi: int)
    requires forall i :: 0 <= i < |cells| ==> lo <= cells[i].y <= hi
    ensures forall i :: 0 <= i < |Filter(cells, keep)| ==> lo <= Filter(cells, keep)[i].y <= hi
  {
    var r := Filter(cells, keep);
    forall i | 0 <= i < |r|
      ensures lo <= r[i].y <= hi
    {
      assert r[i] in cells;
    }
  }

  lemma {:induction false} FilterTrue(cells: seq<Vec2D>)
    ensures Filter(cells, (p: Vec2D) => true) == cells
  {
    if |cells| > 0 {
      FilterTrue(cells[1..]);
      assert cells == [cells[0]] + cells[1..];
    }
  }

  /** When every cell lies in rows `lo..hi`, the row scan over `lo..hi` keeps
      exactly the cells outside full rows. */
  lemma KeptWithinRows(cells: seq<Vec2D>, lo: int, hi: int)
    requires forall i :: 0 <= i < |cells| ==> lo <= cells[i].y <= hi
    ensures Filter(cells, OutsideFullRows(cells, lo, hi)) == Kept(cells)
  {
    FilterExt(cells, OutsideFullRows(cells, lo, hi), (p: Vec2D) => !RowFull(cells, p.y));
  }

  // ---------------------------------------------------------------------------
  // Lemmas about compaction
  // ---------------------------------------------------------------------------

  lemma DownwardImageTrans(a: seq<Vec2D>, b: seq<Vec2D>, c: seq<Vec2D>)
    requires DownwardImage(a, b) && DownwardImage(b, c)
    ensures DownwardImage(a, c)
  {
  }

  /** Pulling the cells above an empty row down keeps rows in order, leaves the
      rows below it alone, and cannot push a cell past row `y`. */
  lemma ShiftAboveSpec(cells: seq<Vec2D>, y: int)
    requires RowEmpty(cells, y)
    ensures DownwardImage(cells, ShiftAbove(cells, y))
    ensures forall row :: row > y ==> (RowEmpty(ShiftAbove(cells, y), row) <==> RowEmpty(cells, row))
    ensures forall i :: 0 <= i < |cells| ==>
      (cells[i].y < y ==> ShiftAbove(cells, y)[i].y == cells[i].y + 1 <= y) &&
      (cells[i].y > y ==> ShiftAbove(cells, y)[i] == cells[i])
  {
    var t := ShiftAbove(cells, y);
    forall row | row > y
      ensures RowEmpty(t, row) <==> RowEmpty(cells, row)
    {
      if !RowEmpty(cells, row) {
        var i :| 0 <= i < |cells| && cells[i].y == row;
        assert t[i].y == row;
      }
      if !RowEmpty(t, row) {
        var i :| 0 <= i < |t| && t[i].y == row;
        assert cells[i].y == row;
      }
    }
  }

  /** Where the bottom-up pass stands before a step: every cell lies in rows
      `minY..hi`, and every row strictly below the scan row `y` is occupied. */
  ghost predicate CompactReady(cells: seq<Vec2D>, y: int, minY: int, hi: int) {
    && y <= hi
    && (forall i :: 0 <= i < |cells| ==> minY <= cells[i].y <= hi)
    && (forall row :: y < row <= hi ==> !RowEmpty(cells, row))
  }

  /** The pass's outcome `r` for `cells`: the cells moved straight down, all
      within rows `r.minY..hi`, and every one of those rows occupied. */
  ghost predicate CompactDone(cells: seq<Vec2D>, r: Compacted, hi: int) {
    && DownwardImage(cells, r.cells)
    && (forall i :: 0 <= i < |r.cells| ==> r.minY <= r.cells[i].y <= hi)
    && (forall row :: r.minY <= row <= hi ==> !RowEmpty(r.cells, row))
  }

  /** One empty-row step of the bottom-up pass keeps its loop invariant with
      the lower bound raised by one. */
  lemma EmptyRowStep(cells: seq<Vec2D>, y: int, minY: int, hi: int)
    requires CompactReady(cells, y, minY, hi) && minY <= y && RowEmpty(cells, y)
    ensures DownwardImage(cells, ShiftAbove(cells, y))
    ensures CompactReady(ShiftAbove(cells, y), y, minY + 1, hi)
  {
    var t := ShiftAbove(cells, y);
    ShiftAboveSpec(cells, y);
    forall i | 0 <= i < |t|
      ensures minY + 1 <= t[i].y <= hi
    {
      assert cells[i].y != y;
    }
  }

  /** The bottom-up pass, started with every cell in rows `minY..hi` and every
      row below the scan row occupied, ends with cells exactly filling the rows
      from its final lower bound down to `hi`, having moved them straight down. */
  lemma {:induction false} CompactSpec(cells: seq<Vec2D>, y: int, minY: int, hi: int)
    requires CompactReady(cells, y, minY, hi)
    ensures CompactDone(cells, Compact(cells, y, minY), hi)
    decreases y + 1 - minY
  {
    if y < minY {
      assert Compact(cells, y, minY) == Compacted(cells, minY);
      DownwardImageRefl(cells);
    } else if RowEmpty(cells, y) {
      var t := ShiftAbove(cells, y);
      EmptyRowStep(cells, y, minY, hi);
      CompactSpec(t, y, minY + 1, hi);
      var r := Compact(t, y, minY + 1);
      assert Compact(cells, y, minY) == r;
      DownwardImageTrans(cells, t, r.cells);
    } else {
      CompactSpec(cells, y - 1, minY, hi);
      assert Compact(cells, y, minY) == Compact(cells, y - 1, minY);
    }
  }

  lemma DownwardImageRefl(s: seq<Vec2D>)
    ensures DownwardImage(s, s)
  {
  }

  // ---------------------------------------------------------------------------
  // Board invariants kept by line clearing
  // ---------------------------------------------------------------------------

  /** Line clearing keeps a board inside the playfield: columns are kept and
      no cell moves below the lowest row it started from. */
  lemma ClearKeepsPlayfield(cells: seq<Vec2D>)
    requires forall i :: 0 <= i < |cells| ==> InPlayfield(cells[i])
    ensures var out := ClearFilledLines(cells).cells;
      forall i :: 0 <= i < |out| ==> InPlayfield(out[i])
  {
    var out := ClearFilledLines(cells).cells;
    var k := Kept(cells);
    forall i | 0 <= i < |out|
      ensures InPlayfield(out[i])
    {
      assert k[i] in cells;
    }
  }

  /** If cells moved straight down fill a row, the cells they came from filled
      one row too. */
  lemma DownwardImageRowFull(s: seq<Vec2D>, t: seq<Vec2D>, row: int)
    requires DownwardImage(s, t) && RowFull(t, row)
    ensures exists i :: 0 <= i < |s| && RowFull(s, s[i].y)
  {
    assert Vec2D(FirstColumn, row) in t;
    var i0 :| 0 <= i0 < |t| && t[i0] == Vec2D(FirstColumn, row);
    var source := s[i0].y;
    forall x | FirstColumn <= x <= LastColumn
      ensures Vec2D(x, source) in s
    {
      assert Vec2D(x, row) in t;
      var i :| 0 <= i < |t| && t[i] == Vec2D(x, row);
      assert s[i].y == source;
      assert s[i] == Vec2D(x, source);
    }
    assert RowFull(s, s[i0].y);
  }

  /** No cell that line clearing keeps lies in a full row of the kept cells. */
  lemma KeptRowsNotFull(cells: seq<Vec2D>)
    ensures forall i :: 0 <= i < |Kept(cells)| ==> !RowFull(Kept(cells), Kept(cells)[i].y)
  {
    var k := Kept(cells);
    forall i | 0 <= i < |k|
      ensures !RowFull(k, k[i].y)
    {
      assert k[i] in cells;
      var x :| FirstColumn <= x <= LastColumn && Vec2D(x, k[i].y) !in cells;
      assert Vec2D(x, k[i].y) !in k;
    }
  }

  /** After line clearing no row is full. */
  lemma ClearLeavesNoFullRow(cells: seq<Vec2D>, row: int)
    ensures !RowFull(ClearFilledLines(cells).cells, row)
  {
    var out := ClearFilledLines(cells).cells;
    KeptRowsNotFull(cells);
    if RowFull(out, row) {
      DownwardImageRowFull(Kept(cells), out, row);
    }
  }

  /** The rows the cells lie in. */
  function RowsOf(cells: seq<Vec2D>): (rows: set<int>)
    ensures |rows| <= |cells|
    ensures forall i :: 0 <= i < |cells| ==> cells[i].y in rows
  {
    if |cells| == 0 then {}
    else {cells[0].y} + RowsOf(cells[1..])
  }

  /** Drawing onto a board without a full row, then clearing, clears at most
      as many rows as the drawn element has cells: every full row must hold a
      drawn cell. */
  lemma ClearedAtMostDrawn(cells: seq<Vec2D>, plotted: seq<Vec2D>)
    requires forall row :: !RowFull(cells, row)
    ensures DrawAndClearLines(cells, plotted).lines <= |plotted|
  {
    var all := cells + plotted;
    if |all| > 0 {
      var full := FullRows(all, MinY(all), MaxY(all));
      var rows := RowsOf(plotted);
      forall row | row in full
        ensures row in rows
      {
        assert !RowFull(cells, row);
        var x :| FirstColumn <= x <= LastColumn && Vec2D(x, row) !in cells;
        assert Vec2D(x, row) in all;
        var i :| 0 <= i < |plotted| && plotted[i] == Vec2D(x, row);
      }
      SubsetCardinality(full, rows);
    }
  }

  lemma SubsetCardinality(a: set<int>, b: set<int>)
    requires a <= b
    ensures |a| <= |b|
  {
    assert b == a + (b - a);
  }
}
