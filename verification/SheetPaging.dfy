/**
 Reading a sheet page by page (`_build_merged_lookup`, `get_sheet_csv` and the hint of
 `get_sheet_csv_handler` in workspace_agent/file_tools/excel_tools.py).

 A sheet gives every cell its printed text and lists its merged ranges; the area to read is the print
 area or the used range.
 */
module SheetPaging {
  import opened Wrappers
  import Sequences

  datatype Range = Range(minRow: int, minCol: int, maxRow: int, maxCol: int)

  datatype Sheet = Sheet(text: (int, int) -> string, merged: seq<Range>)

  predicate Inside(m: Range, r: int, c: int) {
    m.minRow <= r <= m.maxRow && m.minCol <= c <= m.maxCol
  }

  /** A spreadsheet's merged ranges do not overlap. */
  ghost predicate Disjoint(merged: seq<Range>) {
    forall i, j, r, c :: 0 <= i < j < |merged| && Inside(merged[i], r, c) ==> !Inside(merged[j], r, c)
  }

  // ---- the lookup ----

  predicate Skipped(m: Range, area: Range) {
    || m.maxRow < area.minRow || m.minRow > area.maxRow
    || m.maxCol < area.minCol || m.minCol > area.maxCol
    || m.minRow < area.minRow || m.minCol < area.minCol
  }

  predicate Masks(m: Range, area: Range, r: int, c: int) {
    !Skipped(m, area) && Inside(m, r, c) && Inside(area, r, c)
  }

  /** The top left cell of the last of the first n ranges that covers (r, c) and counts in this area. */
  function Anchor(merged: seq<Range>, area: Range, n: nat, r: int, c: int): Option<(int, int)>
    requires n <= |merged|
  {
    if n == 0 then None
    else if Masks(merged[n - 1], area, r, c) then Some((merged[n - 1].minRow, merged[n - 1].minCol))
    else Anchor(merged, area, n - 1, r, c)
  }

  function CellText(s: Sheet, area: Range, r: int, c: int): string {
    var anchor := Anchor(s.merged, area, |s.merged|, r, c);
    if anchor.Some? && anchor.value != (r, c) then "" else s.text(r, c)
  }

  // ---- one page ----

  datatype Csv = Csv(rows: seq<seq<string>>, totalRows: int, totalCols: int, startRow: int, endRow: int, hasMore: bool)

  function Min(a: int, b: int): int {
    if a < b then a else b
  }

  function Max(a: int, b: int): int {
    if a > b then a else b
  }

  function Count(low: int, high: int): nat {
    if high < low then 0 else high - low + 1
  }

  function Row(s: Sheet, area: Range, r: int): seq<string> {
    seq(Count(area.minCol, area.maxCol), j => CellText(s, area, r, area.minCol + j))
  }

  function Rows(s: Sheet, area: Range, low: int, high: int): seq<seq<string>> {
    seq(Count(low, high), i => Row(s, area, low + i))
  }

  function SheetCsv(s: Sheet, area: Range, startRow: Option<int>, endRow: Option<int>, maxRows: int): Csv {
    var start := if startRow.Some? then startRow.value else area.minRow;
    var end := Min(if endRow.Some? then endRow.value else start + maxRows - 1, area.maxRow);
    var from := Max(start, area.minRow);
    Csv(Rows(s, area.(minRow := from, maxRow := end), from, end),
        area.maxRow - area.minRow + 1, area.maxCol - area.minCol + 1, from, end, end < area.maxRow)
  }

  /** All pages, each starting one row below the end of the one before, as the hint says. */
  function FollowHints(s: Sheet, area: Range, startRow: int, maxRows: int): seq<seq<string>>
    requires maxRows >= 1
    decreases area.maxRow - startRow
  {
    var page := SheetCsv(s, area, Some(startRow), None, maxRows);
    if page.hasMore then page.rows + FollowHints(s, area, page.endRow + 1, maxRows)
    else page.rows
  }

  /** The hint always moves on, unless the page size is below one: then it repeats rows or stands still. */
  lemma HintMovesOn(s: Sheet, area: Range, startRow: int, maxRows: int)
    requires area.minRow <= startRow <= area.maxRow
    ensures var page := SheetCsv(s, area, Some(startRow), None, maxRows);
            && (page.hasMore ==> (page.endRow + 1 > startRow <==> maxRows >= 1))
            && (maxRows < 1 ==> page.hasMore && page.rows == [])
            && (page.rows != [] ==> page.startRow == startRow)
  {
  }

  // ---- pages against the whole ----

  /** Where the page that shows row r begins. */
  function PageStart(area: Range, maxRows: int, r: int): int
    requires maxRows >= 1
  {
    r - (r - area.minRow) % maxRows
  }

  /** The range covers the cell (r, c) of the area from above row `top`. */
  predicate CoversFromAbove(m: Range, area: Range, top: int, r: int, c: int) {
    Masks(m, area, r, c) && m.minRow < top
  }

  ghost predicate Straddles(s: Sheet, area: Range, top: int, r: int, c: int) {
    exists i :: 0 <= i < |s.merged| && CoversFromAbove(s.merged[i], area, top, r, c)
  }

  /** If a merged range covers the cell from above row `top`, the cell itself reads empty. */
  ghost predicate Clean(s: Sheet, area: Range, top: int, r: int, c: int) {
    Straddles(s, area, top, r, c) ==> s.text(r, c) == ""
  }

  ghost predicate RowClean(s: Sheet, area: Range, top: int, r: int) {
    forall c :: area.minCol <= c <= area.maxCol ==> Clean(s, area, top, r, c)
  }

  /** No cell with text lies in a merged range that begins above the cell's page. */
  ghost predicate CleanFrom(s: Sheet, area: Range, maxRows: int, start: int)
    requires maxRows >= 1
  {
    forall r :: start <= r <= area.maxRow ==> RowClean(s, area, PageStart(area, maxRows, r), r)
  }

  lemma DisjointAt(merged: seq<Range>, i: nat, j: nat, r: int, c: int)
    requires Disjoint(merged) && i < |merged| && j < |merged| && i != j && Inside(merged[i], r, c)
    ensures !Inside(merged[j], r, c)
  {
  }

  /** With disjoint ranges a covering range is the anchor, whichever comes first in the list. */
  lemma {:induction false} AnchorIsCover(merged: seq<Range>, area: Range, n: nat, i: nat, r: int, c: int)
    requires Disjoint(merged) && i < |merged| && n <= |merged| && Masks(merged[i], area, r, c)
    ensures Anchor(merged, area, n, r, c) == if i < n then Some((merged[i].minRow, merged[i].minCol)) else None
  {
    if n > 0 && n - 1 != i {
      DisjointAt(merged, i, n - 1, r, c);
      AnchorIsCover(merged, area, n - 1, i, r, c);
    }
  }

  lemma {:induction false} AnchorComesFrom(merged: seq<Range>, area: Range, n: nat, r: int, c: int) returns (i: nat)
    requires n <= |merged| && Anchor(merged, area, n, r, c).Some?
    ensures i < n && Masks(merged[i], area, r, c)
  {
    if Masks(merged[n - 1], area, r, c) {
      i := n - 1;
    } else {
      i := AnchorComesFrom(merged, area, n - 1, r, c);
    }
  }

  /** A page prints a cell as the whole read does, unless it has text and is covered from above the page. */
  lemma CellOnPage(s: Sheet, area: Range, top: int, bottom: int, r: int, c: int)
    requires Disjoint(s.merged)
    requires area.minRow <= top <= r <= bottom <= area.maxRow && area.minCol <= c <= area.maxCol
    ensures CellText(s, area.(minRow := top, maxRow := bottom), r, c) == CellText(s, area, r, c)
            <==> Clean(s, area, top, r, c)
  {
    var page := area.(minRow := top, maxRow := bottom);
    var whole := Anchor(s.merged, area, |s.merged|, r, c);
    var inPage := Anchor(s.merged, page, |s.merged|, r, c);
    if whole.Some? {
      var i := AnchorComesFrom(s.merged, area, |s.merged|, r, c);
      AnchorIsCover(s.merged, area, |s.merged|, i, r, c);
      if s.merged[i].minRow < top {
        assert CoversFromAbove(s.merged[i], area, top, r, c);
        if inPage.Some? {
          var j := AnchorComesFrom(s.merged, page, |s.merged|, r, c);
          assert Masks(s.merged[j], area, r, c);
          AnchorIsCover(s.merged, area, |s.merged|, j, r, c);
          assert false;
        }
      } else {
        AnchorIsCover(s.merged, page, |s.merged|, i, r, c);
        if Straddles(s, area, top, r, c) {
          var k :| 0 <= k < |s.merged| && CoversFromAbove(s.merged[k], area, top, r, c);
          AnchorIsCover(s.merged, area, |s.merged|, k, r, c);
        }
      }
    } else {
      if inPage.Some? {
        var j := AnchorComesFrom(s.merged, page, |s.merged|, r, c);
        AnchorIsCover(s.merged, area, |s.merged|, j, r, c);
      }
      if Straddles(s, area, top, r, c) {
        var k :| 0 <= k < |s.merged| && CoversFromAbove(s.merged[k], area, top, r, c);
        AnchorIsCover(s.merged, area, |s.merged|, k, r, c);
      }
    }
  }

  /** The range contains the cell, which is not its top left one. */
  predicate Hides(m: Range, r: int, c: int) {
    m.minRow <= r <= m.maxRow && m.minCol <= c <= m.maxCol && !(r == m.minRow && c == m.minCol)
  }

  /**
   Without loading, a cell of the area reads empty exactly where a merged range hides it that begins
   inside the area; any other cell reads as its text.
   */
  lemma CellTextIs(s: Sheet, area: Range, r: int, c: int)
    requires Disjoint(s.merged) && Inside(area, r, c)
    ensures var hidden := exists i :: 0 <= i < |s.merged| && HidesFrom(s.merged[i], area, r, c);
            CellText(s, area, r, c) == if hidden then "" else s.text(r, c)
  {
    if i :| 0 <= i < |s.merged| && HidesFrom(s.merged[i], area, r, c) {
      AnchorIsCover(s.merged, area, |s.merged|, i, r, c);
    }
    if Anchor(s.merged, area, |s.merged|, r, c).Some? {
      var i := AnchorComesFrom(s.merged, area, |s.merged|, r, c);
      AnchorIsCover(s.merged, area, |s.merged|, i, r, c);
      assert Hides(s.merged[i], r, c) ==> HidesFrom(s.merged[i], area, r, c);
    }
  }

  predicate HidesFrom(m: Range, area: Range, r: int, c: int) {
    Hides(m, r, c) && area.minRow <= m.minRow && area.minCol <= m.minCol
  }

  ghost predicate PageClean(s: Sheet, area: Range, top: int, bottom: int) {
    forall r :: top <= r <= bottom ==> RowClean(s, area, top, r)
  }

  lemma RowAt(s: Sheet, area: Range, r: int, c: int)
    requires area.minCol <= c <= area.maxCol
    ensures |Row(s, area, r)| == area.maxCol - area.minCol + 1
    ensures Row(s, area, r)[c - area.minCol] == CellText(s, area, r, c)
  {
    assert area.minCol + (c - area.minCol) == c;
  }

  /** One row of a page against the same row of the whole. */
  lemma RowAgrees(s: Sheet, area: Range, top: int, bottom: int, r: int)
    requires Disjoint(s.merged) && area.minRow <= top <= r <= bottom <= area.maxRow
    ensures Row(s, area.(minRow := top, maxRow := bottom), r) == Row(s, area, r) <==> RowClean(s, area, top, r)
  {
    var page := area.(minRow := top, maxRow := bottom);
    var mine, whole := Row(s, page, r), Row(s, area, r);
    if mine == whole {
      forall c | area.minCol <= c <= area.maxCol ensures Clean(s, area, top, r, c) {
        CellOnPage(s, area, top, bottom, r, c);
        RowAt(s, page, r, c);
        RowAt(s, area, r, c);
      }
    }
    if RowClean(s, area, top, r) {
      forall j | 0 <= j < |mine| ensures mine[j] == whole[j] {
        CellOnPage(s, area, top, bottom, r, area.minCol + j);
        assert Clean(s, area, top, r, area.minCol + j);
      }
    }
  }

  lemma RowsAt(s: Sheet, area: Range, low: int, high: int, r: int)
    requires low <= r <= high
    ensures |Rows(s, area, low, high)| == high - low + 1
    ensures Rows(s, area, low, high)[r - low] == Row(s, area, r)
  {
    assert low + (r - low) == r;
  }

  /** The rows of one page against the same rows of the whole. */
  lemma PageAgrees(s: Sheet, area: Range, top: int, bottom: int)
    requires Disjoint(s.merged) && area.minRow <= top <= bottom <= area.maxRow
    ensures Rows(s, area.(minRow := top, maxRow := bottom), top, bottom) == Rows(s, area, top, bottom)
            <==> PageClean(s, area, top, bottom)
  {
    var page := area.(minRow := top, maxRow := bottom);
    var mine, whole := Rows(s, page, top, bottom), Rows(s, area, top, bottom);
    if mine == whole {
      forall r | top <= r <= bottom ensures RowClean(s, area, top, r) {
        RowAgrees(s, area, top, bottom, r);
        RowsAt(s, page, top, bottom, r);
        RowsAt(s, area, top, bottom, r);
      }
    }
    if PageClean(s, area, top, bottom) {
      forall k | 0 <= k < |mine| ensures mine[k] == whole[k] {
        assert RowClean(s, area, top, top + k);
        RowAgrees(s, area, top, bottom, top + k);
      }
    }
  }

  lemma RowsSplit(s: Sheet, area: Range, low: int, mid: int, high: int)
    requires low <= mid < high
    ensures Rows(s, area, low, high) == Rows(s, area, low, mid) + Rows(s, area, mid + 1, high)
  {
    var whole, joined := Rows(s, area, low, high), Rows(s, area, low, mid) + Rows(s, area, mid + 1, high);
    forall k | 0 <= k < |whole| ensures whole[k] == joined[k] {
      if k >= mid - low + 1 {
        assert low + k == mid + 1 + (k - (mid - low + 1));
      }
    }
  }

  lemma Multiple(n: int, k: int)
    requires n >= 1
    ensures k >= 1 ==> n * k >= n
    ensures k <= -1 ==> n * k <= -n
  {
  }

  lemma ModIs(x: int, n: int, q: int, b: int)
    requires n >= 1 && 0 <= b < n && x == q * n + b
    ensures x % n == b
  {
    var k := x / n - q;
    assert n * k == b - x % n;
    Multiple(n, k);
  }

  lemma SamePage(area: Range, maxRows: int, start: int, r: int)
    requires maxRows >= 1 && (start - area.minRow) % maxRows == 0 && start <= r < start + maxRows
    ensures PageStart(area, maxRows, r) == start
  {
    ModIs(r - area.minRow, maxRows, (start - area.minRow) / maxRows, r - start);
  }

  lemma CleanSplits(s: Sheet, area: Range, maxRows: int, start: int)
    requires maxRows >= 1 && (start - area.minRow) % maxRows == 0
    ensures var end := Min(start + maxRows - 1, area.maxRow);
            CleanFrom(s, area, maxRows, start)
            <==> PageClean(s, area, start, end) && CleanFrom(s, area, maxRows, end + 1)
  {
    var end := Min(start + maxRows - 1, area.maxRow);
    forall r | start <= r <= end
      ensures RowClean(s, area, PageStart(area, maxRows, r), r) <==> RowClean(s, area, start, r)
    {
      SamePage(area, maxRows, start, r);
    }
  }

  /** One page and, if there is more, the pages after it. */
  lemma HintsStep(s: Sheet, area: Range, maxRows: int, start: int, end: int)
    requires maxRows >= 1 && area.minRow <= start <= area.maxRow && end == Min(start + maxRows - 1, area.maxRow)
    ensures var page := Rows(s, area.(minRow := start, maxRow := end), start, end);
            && |page| == |Rows(s, area, start, end)|
            && FollowHints(s, area, start, maxRows)
               == if end < area.maxRow then page + FollowHints(s, area, end + 1, maxRows) else page
  {
  }

  /** The pages from a row on are the whole if the first of them is its part and the others are the rest. */
  lemma HintsAgreeStep(s: Sheet, area: Range, maxRows: int, start: int, end: int)
    requires maxRows >= 1 && area.minRow <= start <= area.maxRow && end == start + maxRows - 1 < area.maxRow
    requires |FollowHints(s, area, end + 1, maxRows)| == |Rows(s, area, end + 1, area.maxRow)|
    ensures |FollowHints(s, area, start, maxRows)| == |Rows(s, area, start, area.maxRow)|
    ensures FollowHints(s, area, start, maxRows) == Rows(s, area, start, area.maxRow)
            <==> && Rows(s, area.(minRow := start, maxRow := end), start, end) == Rows(s, area, start, end)
                 && FollowHints(s, area, end + 1, maxRows) == Rows(s, area, end + 1, area.maxRow)
  {
    HintsStep(s, area, maxRows, start, end);
    RowsSplit(s, area, start, end, area.maxRow);
    SameParts(Rows(s, area.(minRow := start, maxRow := end), start, end), FollowHints(s, area, end + 1, maxRows),
              Rows(s, area, start, end), Rows(s, area, end + 1, area.maxRow));
  }

  lemma {:induction false} HintsAgreeFrom(s: Sheet, area: Range, maxRows: int, start: int)
    requires Disjoint(s.merged) && maxRows >= 1
    requires area.minRow <= start <= area.maxRow && (start - area.minRow) % maxRows == 0
    ensures |FollowHints(s, area, start, maxRows)| == |Rows(s, area, start, area.maxRow)|
    ensures FollowHints(s, area, start, maxRows) == Rows(s, area, start, area.maxRow)
            <==> CleanFrom(s, area, maxRows, start)
    decreases area.maxRow - start
  {
    var end := Min(start + maxRows - 1, area.maxRow);
    PageAgrees(s, area, start, end);
    CleanSplits(s, area, maxRows, start);
    if end < area.maxRow {
      NextPage(area, maxRows, start);
      HintsAgreeFrom(s, area, maxRows, end + 1);
      HintsAgreeStep(s, area, maxRows, start, end);
    } else {
      HintsStep(s, area, maxRows, start, end);
    }
  }

  lemma NextPage(area: Range, maxRows: int, start: int)
    requires maxRows >= 1 && (start - area.minRow) % maxRows == 0
    ensures (start + maxRows - area.minRow) % maxRows == 0
  {
    ModIs(start + maxRows - area.minRow, maxRows, (start - area.minRow) / maxRows + 1, 0);
  }

  lemma SameParts<T>(a: seq<T>, b: seq<T>, a': seq<T>, b': seq<T>)
    requires |a| == |a'|
    ensures a + b == a' + b' <==> a == a' && b == b'
  {
    Sequences.Seam(a, b);
    Sequences.Seam(a', b');
  }

  /**
   Following the hints from the top ends, shows as many rows as the area has, and shows exactly what
   one read of the whole area shows if and only if no cell with text lies in a merged range that begins
   above the cell's page.
   */
  lemma PagesAreTheWhole(s: Sheet, area: Range, maxRows: int)
    requires Disjoint(s.merged) && maxRows >= 1 && area.minRow <= area.maxRow
    ensures var whole := SheetCsv(s, area, None, Some(area.maxRow), maxRows);
            var pages := FollowHints(s, area, area.minRow, maxRows);
            && !whole.hasMore && |pages| == |whole.rows| == whole.totalRows
            && (pages == whole.rows <==> CleanFrom(s, area, maxRows, area.minRow))
  {
    assert area.(minRow := area.minRow, maxRow := area.maxRow) == area;
    HintsAgreeFrom(s, area, maxRows, area.minRow);
  }

  // ---- what the reader of workbooks leaves in a sheet ----

  /** (r, c) lies in a merged range and is not its top left cell. */
  predicate Covered(merged: seq<Range>, r: int, c: int) {
    exists i :: 0 <= i < |merged| && Inside(merged[i], r, c) && (r, c) != (merged[i].minRow, merged[i].minCol)
  }

  /** `_load_workbook_from_bytes`: the full reader empties every cell that a merged range covers. */
  function Load(stored: Sheet): Sheet {
    Sheet((r, c) => if Covered(stored.merged, r, c) then "" else stored.text(r, c), stored.merged)
  }

  lemma {:induction false} AnchorCovers(merged: seq<Range>, area: Range, n: nat, r: int, c: int)
    requires n <= |merged|
    ensures var a := Anchor(merged, area, n, r, c); a.Some? && a.value != (r, c) ==> Covered(merged, r, c)
  {
    if n > 0 {
      if Masks(merged[n - 1], area, r, c) {
        assert Inside(merged[n - 1], r, c);
      } else {
        AnchorCovers(merged, area, n - 1, r, c);
      }
    }
  }

  /** After loading, the lookup hides nothing that the reader had not emptied: every area prints the cell's own text. */
  lemma LoadedCellText(stored: Sheet, area: Range, r: int, c: int)
    ensures CellText(Load(stored), area, r, c) == Load(stored).text(r, c)
  {
    AnchorCovers(stored.merged, area, |stored.merged|, r, c);
  }

  /** Loading empties the cells that a merged range covers, but for its top left one, and leaves the others. */
  lemma LoadedTextIs(stored: Sheet, r: int, c: int)
    ensures Load(stored).merged == stored.merged
    ensures (exists i :: 0 <= i < |stored.merged| && Hides(stored.merged[i], r, c)) ==> Load(stored).text(r, c) == ""
    ensures !(exists i :: 0 <= i < |stored.merged| && Hides(stored.merged[i], r, c)) ==>
              Load(stored).text(r, c) == stored.text(r, c)
  {
    if i :| 0 <= i < |stored.merged| && Hides(stored.merged[i], r, c) {
      assert Inside(stored.merged[i], r, c) && (r, c) != (stored.merged[i].minRow, stored.merged[i].minCol);
      assert Covered(stored.merged, r, c);
    }
    if i :| 0 <= i < |stored.merged| && Inside(stored.merged[i], r, c)
            && (r, c) != (stored.merged[i].minRow, stored.merged[i].minCol) {
      assert Hides(stored.merged[i], r, c);
    }
  }

  lemma LoadedPage(stored: Sheet, area: Range, top: int, bottom: int)
    ensures Rows(Load(stored), area.(minRow := top, maxRow := bottom), top, bottom)
         == Rows(Load(stored), area, top, bottom)
  {
    var s, page := Load(stored), area.(minRow := top, maxRow := bottom);
    forall r ensures Row(s, page, r) == Row(s, area, r) {
      forall j | 0 <= j < Count(area.minCol, area.maxCol) ensures Row(s, page, r)[j] == Row(s, area, r)[j] {
        LoadedCellText(stored, page, r, area.minCol + j);
        LoadedCellText(stored, area, r, area.minCol + j);
      }
    }
  }

  lemma {:induction false} LoadedHints(stored: Sheet, area: Range, maxRows: int, start: int)
    requires maxRows >= 1 && area.minRow <= start <= area.maxRow
    ensures FollowHints(Load(stored), area, start, maxRows) == Rows(Load(stored), area, start, area.maxRow)
    decreases area.maxRow - start
  {
    var end := Min(start + maxRows - 1, area.maxRow);
    HintsStep(Load(stored), area, maxRows, start, end);
    LoadedPage(stored, area, start, end);
    if end < area.maxRow {
      LoadedHints(stored, area, maxRows, end + 1);
      RowsSplit(Load(stored), area, start, end, area.maxRow);
    }
  }

  /**
   Paging is lossless for every workbook: whatever is stored in covered cells and however merged ranges
   lie, following the hints with any page size shows what one read of the whole area shows.
   */
  lemma PagesConcatenate(stored: Sheet, area: Range, maxRows: int)
    requires maxRows >= 1 && area.minRow <= area.maxRow
    ensures FollowHints(Load(stored), area, area.minRow, maxRows)
         == SheetCsv(Load(stored), area, None, Some(area.maxRow), maxRows).rows
  {
    assert area.(minRow := area.minRow, maxRow := area.maxRow) == area;
    LoadedHints(stored, area, maxRows, area.minRow);
  }

  // ---- what a read returns ----

  lemma LoadedCell(stored: Sheet, area: Range, r: int, c: int)
    requires area.minCol <= c <= area.maxCol
    ensures |Row(Load(stored), area, r)| == area.maxCol - area.minCol + 1
    ensures Row(Load(stored), area, r)[c - area.minCol] == Load(stored).text(r, c)
  {
    RowAt(Load(stored), area, r, c);
    LoadedCellText(stored, area, r, c);
  }

  /** Row r of the area lies between the first and the last row asked for. */
  predicate Asked(area: Range, first: int, last: int, r: int) {
    first <= r <= last && area.minRow <= r <= area.maxRow
  }

  predicate Shown(csv: Csv, r: int) {
    csv.startRow <= r <= csv.endRow
  }

  /** The text stands in the place of cell (r, c). */
  predicate ShowsCell(csv: Csv, area: Range, r: int, c: int, text: string) {
    && 0 <= r - csv.startRow < |csv.rows|
    && |csv.rows[r - csv.startRow]| == area.maxCol - area.minCol + 1
    && 0 <= c - area.minCol < |csv.rows[r - csv.startRow]|
    && csv.rows[r - csv.startRow][c - area.minCol] == text
  }

  /**
   A read shows exactly the rows of the area from the first to the last row asked for, each cell with
   its loaded text, and there is more exactly if a row of the area lies below the last one.  Without an
   end the read stops after `maxRows` rows from the start, without a start it begins at the top.
   */
  lemma ReadReturnsRows(stored: Sheet, area: Range, startRow: Option<int>, endRow: Option<int>, maxRows: int)
    ensures var first := if startRow.Some? then startRow.value else area.minRow;
            var last := if endRow.Some? then endRow.value else first + maxRows - 1;
            var csv := SheetCsv(Load(stored), area, startRow, endRow, maxRows);
            && (forall r :: Shown(csv, r) <==> Asked(area, first, last, r))
            && csv.startRow == Max(first, area.minRow) && csv.endRow == Min(last, area.maxRow)
            && |csv.rows| == Count(csv.startRow, csv.endRow)
            && (forall r, c :: Shown(csv, r) && area.minCol <= c <= area.maxCol ==>
                  ShowsCell(csv, area, r, c, Load(stored).text(r, c)))
            && (csv.hasMore <==> last < area.maxRow)
            && csv.totalRows == area.maxRow - area.minRow + 1 && csv.totalCols == area.maxCol - area.minCol + 1
  {
    var csv := SheetCsv(Load(stored), area, startRow, endRow, maxRows);
    var page := area.(minRow := csv.startRow, maxRow := csv.endRow);
    forall r, c | Shown(csv, r) && area.minCol <= c <= area.maxCol
      ensures ShowsCell(csv, area, r, c, Load(stored).text(r, c))
    {
      RowsAt(Load(stored), page, csv.startRow, csv.endRow, r);
      LoadedCell(stored, page, r, c);
    }
  }

  /** Reading rows a to b and then rows b + 1 to c is reading rows a to c, wherever they lie. */
  lemma ReadsConcatenate(stored: Sheet, area: Range, a: int, b: int, c: int, maxRows: int)
    requires a <= b + 1 && b <= c
    ensures SheetCsv(Load(stored), area, Some(a), Some(b), maxRows).rows
            + SheetCsv(Load(stored), area, Some(b + 1), Some(c), maxRows).rows
         == SheetCsv(Load(stored), area, Some(a), Some(c), maxRows).rows
  {
    var s := Load(stored);
    var from, mid, next, to := Max(a, area.minRow), Min(b, area.maxRow), Max(b + 1, area.minRow), Min(c, area.maxRow);
    LoadedPage(stored, area, from, mid);
    LoadedPage(stored, area, next, to);
    LoadedPage(stored, area, from, to);
    if from <= mid < to {
      RowsSplit(s, area, from, mid, to);
    } else if mid < from {
      Sequences.EmptyUnit(Rows(s, area, next, to));
    } else {
      Sequences.EmptyUnit(Rows(s, area, from, mid));
    }
  }

  // ---- the loops of the source ----

  ghost predicate LookupIs(lookup: map<(int, int), (int, int)>, merged: seq<Range>, area: Range, n: nat)
    requires n <= |merged|
  {
    forall r, c :: LookupAt(lookup, merged, area, n, r, c)
  }

  ghost predicate LookupAt(lookup: map<(int, int), (int, int)>, merged: seq<Range>, area: Range, n: nat, r: int, c: int)
    requires n <= |merged|
  {
    Anchor(merged, area, n, r, c) == if (r, c) in lookup then Some(lookup[(r, c)]) else None
  }

  /** `_build_merged_lookup`. */
  method BuildMergedLookup(merged: seq<Range>, area: Range) returns (lookup: map<(int, int), (int, int)>)
    ensures LookupIs(lookup, merged, area, |merged|)
  {
    lookup := map[];
    for n := 0 to |merged|
      invariant LookupIs(lookup, merged, area, n)
    {
      ghost var before := lookup;
      var m := merged[n];
      if !Skipped(m, area) {
        lookup := AddRange(lookup, m, area);
      }
      ghost var next := n + 1;
      forall r, c ensures LookupAt(lookup, merged, area, next, r, c) {
        assert LookupAt(before, merged, area, n, r, c);
      }
    }
  }

  /** The two inner loops. */
  method AddRange(lookup: map<(int, int), (int, int)>, m: Range, area: Range)
    returns (grown: map<(int, int), (int, int)>)
    requires !Skipped(m, area)
    ensures forall r, c :: (r, c) in grown <==> (r, c) in lookup || Masks(m, area, r, c)
    ensures forall r, c :: (r, c) in grown ==>
              grown[(r, c)] == if Masks(m, area, r, c) then (m.minRow, m.minCol) else lookup[(r, c)]
  {
    grown := lookup;
    var r := m.minRow;
    while r <= m.maxRow
      invariant m.minRow <= r
      invariant forall x, y :: (x, y) in grown <==> (x, y) in lookup || (Masks(m, area, x, y) && x < r)
      invariant forall x, y :: (x, y) in grown ==>
                  grown[(x, y)] == if Masks(m, area, x, y) && x < r then (m.minRow, m.minCol) else lookup[(x, y)]
    {
      var c := m.minCol;
      while c <= m.maxCol
        invariant m.minCol <= c
        invariant forall x, y :: (x, y) in grown <==>
                    (x, y) in lookup || (Masks(m, area, x, y) && (x < r || (x == r && y < c)))
        invariant forall x, y :: (x, y) in grown ==>
                    grown[(x, y)] == if Masks(m, area, x, y) && (x < r || (x == r && y < c)) then (m.minRow, m.minCol)
                                     else lookup[(x, y)]
      {
        if area.minRow <= r <= area.maxRow && area.minCol <= c <= area.maxCol {
          grown := grown[(r, c) := (m.minRow, m.minCol)];
        }
        c := c + 1;
      }
      r := r + 1;
    }
  }

  /** The inner loop of `get_sheet_csv`. */
  method ReadRow(s: Sheet, page: Range, lookup: map<(int, int), (int, int)>, r: int) returns (row: seq<string>)
    requires LookupIs(lookup, s.merged, page, |s.merged|)
    ensures row == Row(s, page, r)
  {
    row := [];
    var c := page.minCol;
    while c <= page.maxCol
      invariant page.minCol <= c && |row| == c - page.minCol
      invariant c <= page.maxCol + 1 || c == page.minCol
      invariant forall j :: 0 <= j < |row| ==> row[j] == CellText(s, page, r, page.minCol + j)
    {
      assert LookupAt(lookup, s.merged, page, |s.merged|, r, c);
      var text := if (r, c) in lookup && lookup[(r, c)] != (r, c) then "" else s.text(r, c);
      row := row + [text];
      c := c + 1;
    }
    assert row == Row(s, page, r);
  }

  /** `get_sheet_csv` on a sheet that was found. */
  method GetSheetCsv(s: Sheet, area: Range, startRow: Option<int>, endRow: Option<int>, maxRows: int) returns (csv: Csv)
    ensures csv == SheetCsv(s, area, startRow, endRow, maxRows)
  {
    var start := if startRow.Some? then startRow.value else area.minRow;
    var end := if endRow.Some? then Min(endRow.value, area.maxRow) else Min(start + maxRows - 1, area.maxRow);
    start := Max(start, area.minRow);
    end := Min(end, area.maxRow);
    var page := area.(minRow := start, maxRow := end);
    var lookup := BuildMergedLookup(s.merged, page);
    var rows: seq<seq<string>> := [];
    var r := start;
    while r <= end
      invariant start <= r && |rows| == r - start
      invariant r <= end + 1 || r == start
      invariant forall k :: 0 <= k < |rows| ==> rows[k] == Row(s, page, start + k)
    {
      var row := ReadRow(s, page, lookup, r);
      rows := rows + [row];
      r := r + 1;
    }
    assert rows == Rows(s, page, start, end);
    csv := Csv(rows, area.maxRow - area.minRow + 1, area.maxCol - area.minCol + 1, start, end, end < area.maxRow);
  }
}
