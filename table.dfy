/**
 * The generic table: a list of items, the cells each item rendered to when it was set, column
 * definitions with width ratios, a cursor on a row and a column, and the vertical scroll offset
 * that keeps the cursor row inside the content area.
 */
module Table {
  import opened Results
  import opened Seqs
  import C = Clamp

  datatype ColumnDefinition = ColumnDefinition(widthRatio: int, title: string)

  /** The messages the table reacts to: a key press, or anything else. */
  datatype Msg = Key(key: string) | Other

  // ---------------------------------------------------------------- the cursor

  /** The row a key moves the cursor to, before clamping; `G` aims at the last rendered row. */
  function KeyRow(key: string, row: int, views: nat): (r: int)
    ensures key in {"j", "down"} ==> r == row + 1
    ensures key in {"k", "up"} ==> r == row - 1
    ensures key == "g" ==> r == 0
    ensures key == "G" ==> r == views - 1
    ensures key !in {"j", "down", "k", "up", "g", "G"} ==> r == row
  {
    match key
    case "j" => row + 1
    case "down" => row + 1
    case "k" => row - 1
    case "up" => row - 1
    case "g" => 0
    case "G" => views - 1
    case _ => row
  }

  /** The column a key moves the cursor to, before clamping. */
  function KeyColumn(key: string, column: int): (c: int)
    ensures key in {"l", "right"} ==> c == column + 1
    ensures key in {"h", "left"} ==> c == column - 1
    ensures key !in {"l", "right", "h", "left"} ==> c == column
  {
    match key
    case "l" => column + 1
    case "right" => column + 1
    case "h" => column - 1
    case "left" => column - 1
    case _ => column
  }

  /** The cursor row after a key, clamped to the items. */
  function RowAfterKey(key: string, row: int, items: nat, views: nat): int
  {
    C.Clamp(0, KeyRow(key, row, views), items - 1)
  }

  /** The cursor column after a key, clamped to the first row's cells, or 0 without rows. */
  function ColumnAfterKey(key: string, column: int, views: seq<seq<string>>): int
  {
    if |views| > 0 then C.Clamp(0, KeyColumn(key, column), |views[0]| - 1) else 0
  }

  /**
   * With items, every key leaves the cursor on an item; a step key moves it by at most one
   * row, and `g` and `G` reach the first and (when every item was rendered) the last row.
   */
  lemma KeyKeepsRowOnItems(key: string, row: int, items: nat, views: nat)
    requires items > 0
    ensures var r := RowAfterKey(key, row, items, views);
      && 0 <= r < items
      && (key in {"j", "down"} && 0 <= row < items ==> r == if row == items - 1 then row else row + 1)
      && (key in {"k", "up"} && 0 <= row < items ==> r == if row == 0 then 0 else row - 1)
      && (key == "g" ==> r == 0)
      && (key == "G" && views == items ==> r == items - 1)
  {
  }

  /** Without items the bounds are inverted: a target at or past the top gives row -1. */
  lemma EmptyTableRow(key: string, row: int, views: nat)
    ensures RowAfterKey(key, row, 0, views) == if KeyRow(key, row, views) < 0 then 0 else -1
  {
    C.ClampInvertedBounds(0, KeyRow(key, row, views), -1);
  }

  /** With cells in the first row, the cursor column stays on one of them; without rows it is 0. */
  lemma KeyKeepsColumnOnCells(key: string, column: int, views: seq<seq<string>>)
    ensures views == [] ==> ColumnAfterKey(key, column, views) == 0
    ensures views != [] && |views[0]| > 0 ==> 0 <= ColumnAfterKey(key, column, views) < |views[0]|
  {
  }

  // ---------------------------------------------------------------- scrolling

  /**
   * `updateYOffset`: the offset after bringing the row at `selected` into a content area of
   * `height` rows that starts at `offset`. A row below the area scrolls it down just far
   * enough, a row above it scrolls it up to that row, and a visible row keeps it.
   */
  function ScrolledOffset(selected: int, offset: int, height: int): (y: int)
    ensures height >= 1 ==> y <= selected < y + height
    ensures offset <= selected < offset + height ==> y == offset
    ensures selected >= offset + height ==> y == selected - height + 1
    ensures selected < offset && selected < offset + height ==> y == selected
  {
    if selected >= offset + height then offset + (selected - (offset + height) + 1)
    else if selected < offset then offset - (offset - selected)
    else offset
  }

  /** Scrolling again to the same row changes nothing. */
  lemma ScrollIdempotent(selected: int, offset: int, height: int)
    requires height >= 1
    ensures ScrolledOffset(selected, ScrolledOffset(selected, offset, height), height) == ScrolledOffset(selected, offset, height)
  {
  }

  // ---------------------------------------------------------------- column widths

  /** The sum of the column ratios, accumulated front to back. */
  function RatioSum(cols: seq<ColumnDefinition>): int
  {
    if cols == [] then 0 else RatioSum(cols[..|cols| - 1]) + cols[|cols| - 1].widthRatio
  }

  function Sum(xs: seq<int>): int
  {
    if xs == [] then 0 else Sum(xs[..|xs| - 1]) + xs[|xs| - 1]
  }

  /** `int(x)` of an exact quotient `n / d`: truncated toward zero, for either sign of `d`. */
  function TruncQuotient(n: int, d: int): (q: int)
    requires d != 0
    ensures d > 0 && n >= 0 ==> q * d <= n < (q + 1) * d
    ensures d > 0 && n < 0 ==> (q - 1) * d < n <= q * d
    ensures d < 0 && n >= 0 ==> q * d <= n < (q - 1) * d
    ensures d < 0 && n < 0 ==> (q + 1) * d < n <= q * d
  {
    if d > 0 then
      if n >= 0 then n / d else -((-n) / d)
    else
      if n >= 0 then -(n / -d) else (-n) / (-d)
  }

  /** Column `i` gets its ratio's share of the width, truncated. */
  function Share(width: int, col: ColumnDefinition, total: int): int
    requires total != 0
  {
    TruncQuotient(width * col.widthRatio, total)
  }

  function Shares(width: int, cols: seq<ColumnDefinition>, total: int): (ws: seq<int>)
    requires total != 0
    ensures |ws| == |cols|
  {
    seq(|cols|, i requires 0 <= i < |cols| => Share(width, cols[i], total))
  }

  /** The first `n` shares add up to no more than the width times those columns' ratios. */
  lemma {:induction false} SharesBelowRatios(width: int, cols: seq<ColumnDefinition>, total: int, n: nat)
    requires total > 0 && width >= 0 && n <= |cols|
    requires forall i :: 0 <= i < |cols| ==> cols[i].widthRatio >= 0
    ensures total * Sum(Shares(width, cols, total)[..n]) <= width * RatioSum(cols[..n])
  {
    var ws := Shares(width, cols, total);
    if n > 0 {
      SharesBelowRatios(width, cols, total, n - 1);
      assert ws[..n][..n - 1] == ws[..n - 1];
      assert cols[..n][..n - 1] == cols[..n - 1];
      var r := cols[n - 1].widthRatio;
      var q := ws[n - 1];
      assert Sum(ws[..n]) == Sum(ws[..n - 1]) + q;
      assert RatioSum(cols[..n]) == RatioSum(cols[..n - 1]) + r;
      MulNonNegative(width, r);
      assert q * total <= width * r;
      StepBound(total, Sum(ws[..n - 1]), q, width, RatioSum(cols[..n - 1]), r);
    }
  }

  lemma StepBound(total: int, s: int, q: int, width: int, ratios: int, r: int)
    requires total * s <= width * ratios && q * total <= width * r
    ensures total * (s + q) <= width * (ratios + r)
  {
    assert total * (s + q) == total * s + q * total;
    assert width * (ratios + r) == width * ratios + width * r;
  }

  lemma MulNonNegative(a: int, b: int)
    requires a >= 0 && b >= 0
    ensures a * b >= 0
  {
  }

  /**
   * With a non-negative width and ratios and a positive total, the column widths add up to at
   * most the table's width.
   */
  lemma ColumnsFitWidth(width: int, cols: seq<ColumnDefinition>)
    requires width >= 0 && RatioSum(cols) > 0
    requires forall i :: 0 <= i < |cols| ==> cols[i].widthRatio >= 0
    ensures var ws := Shares(width, cols, RatioSum(cols));
      && Sum(ws) <= width
      && forall i :: 0 <= i < |cols| ==> 0 <= ws[i] <= width
  {
    var total := RatioSum(cols);
    var ws := Shares(width, cols, total);
    SharesBelowRatios(width, cols, total, |cols|);
    assert ws[..|cols|] == ws && cols[..|cols|] == cols;
    DivideOut(total, Sum(ws), width);
    forall i | 0 <= i < |cols| ensures 0 <= ws[i] <= width {
      RatioBelowTotal(cols, i);
      MulNonNegative(width, cols[i].widthRatio);
      MulLeftMono(width, cols[i].widthRatio, total);
      ShareBelowWidth(width * cols[i].widthRatio, total, width);
    }
  }

  lemma DivideOut(total: int, s: int, width: int)
    requires total > 0 && total * s <= width * total
    ensures s <= width
  {
    if s > width {
      MulLeftMono(total, width + 1, s);
    }
  }

  lemma MulLeftMono(k: int, a: int, b: int)
    requires k >= 0 && a <= b
    ensures k * a <= k * b
  {
    assert k * b - k * a == k * (b - a);
  }

  lemma ShareBelowWidth(n: int, total: int, width: int)
    requires total > 0 && 0 <= n <= width * total
    ensures 0 <= TruncQuotient(n, total) <= width
  {
    var q := n / total;
    assert q * total <= n;
    if q > width {
      assert q * total >= (width + 1) * total by { MulLeftMono(total, width + 1, q); }
    }
  }

  /** Each ratio of a non-negative list is at most its total. */
  lemma {:induction false} RatioBelowTotal(cols: seq<ColumnDefinition>, i: nat)
    requires i < |cols|
    requires forall j :: 0 <= j < |cols| ==> cols[j].widthRatio >= 0
    ensures cols[i].widthRatio <= RatioSum(cols)
  {
    var init := cols[..|cols| - 1];
    RatioSumNonNegative(init);
    if i < |cols| - 1 {
      RatioBelowTotal(init, i);
    }
  }

  lemma {:induction false} RatioSumNonNegative(cols: seq<ColumnDefinition>)
    requires forall j :: 0 <= j < |cols| ==> cols[j].widthRatio >= 0
    ensures RatioSum(cols) >= 0
  {
    if cols != [] {
      RatioSumNonNegative(cols[..|cols| - 1]);
    }
  }

  // ---------------------------------------------------------------- the model

  /** A table of items of type `T`; `itemViews` holds each item's cells as rendered when the
      items were set. */
  class TableModel<T> {
    var items: seq<T>
    var itemViews: seq<seq<string>>
    var columnDefinitions: seq<ColumnDefinition>
    var rowHeight: int
    var cursorRow: int
    var cursorColumn: int
    var yOffset: int
    var width: int
    var height: int

    /** `NewTableModel`: no items, no columns, rows one line high, everything else zero. */
    constructor ()
      ensures items == [] && itemViews == [] && columnDefinitions == []
      ensures rowHeight == 1 && cursorRow == 0 && cursorColumn == 0 && yOffset == 0
      ensures width == 0 && height == 0
    {
      items := [];
      itemViews := [];
      columnDefinitions := [];
      rowHeight := 1;
      cursorRow, cursorColumn, yOffset := 0, 0, 0;
      width, height := 0, 0;
    }

    /** The rows left for items once the header and the help line are drawn. */
    function ContentHeight(): int
      reads this
    {
      height - 2
    }

    method SetRowHeight(i: int)
      modifies this
      ensures rowHeight == i
      ensures items == old(items) && itemViews == old(itemViews) && columnDefinitions == old(columnDefinitions)
      ensures cursorRow == old(cursorRow) && cursorColumn == old(cursorColumn) && yOffset == old(yOffset)
      ensures width == old(width) && height == old(height)
    {
      rowHeight := i;
    }

    method SetColumnDefinitions(cd: seq<ColumnDefinition>)
      modifies this
      ensures columnDefinitions == cd
      ensures items == old(items) && itemViews == old(itemViews) && rowHeight == old(rowHeight)
      ensures cursorRow == old(cursorRow) && cursorColumn == old(cursorColumn) && yOffset == old(yOffset)
      ensures width == old(width) && height == old(height)
    {
      columnDefinitions := cd;
    }

    method SetWidth(i: int)
      modifies this
      ensures width == i
      ensures items == old(items) && itemViews == old(itemViews) && columnDefinitions == old(columnDefinitions)
      ensures rowHeight == old(rowHeight) && cursorRow == old(cursorRow) && cursorColumn == old(cursorColumn)
      ensures yOffset == old(yOffset) && height == old(height)
    {
      width := i;
    }

    method SetHeight(i: int)
      modifies this
      ensures height == i
      ensures items == old(items) && itemViews == old(itemViews) && columnDefinitions == old(columnDefinitions)
      ensures rowHeight == old(rowHeight) && cursorRow == old(cursorRow) && cursorColumn == old(cursorColumn)
      ensures yOffset == old(yOffset) && width == old(width)
    {
      height := i;
    }

    /**
     * `Update`: a key moves the cursor and clamps it to the items and to the first row's
     * cells; then, for every message, the offset scrolls to the cursor row.
     */
    method Update(msg: Msg)
      modifies this
      ensures msg.Key? ==> cursorRow == RowAfterKey(msg.key, old(cursorRow), |items|, |itemViews|)
      ensures msg.Key? ==> cursorColumn == ColumnAfterKey(msg.key, old(cursorColumn), itemViews)
      ensures msg.Other? ==> cursorRow == old(cursorRow) && cursorColumn == old(cursorColumn)
      ensures yOffset == ScrolledOffset(cursorRow * rowHeight, old(yOffset), height - 2)
      ensures items == old(items) && itemViews == old(itemViews) && columnDefinitions == old(columnDefinitions)
      ensures rowHeight == old(rowHeight) && width == old(width) && height == old(height)
    {
      if msg.Key? {
        cursorRow := KeyRow(msg.key, cursorRow, |itemViews|);
        cursorColumn := KeyColumn(msg.key, cursorColumn);
        cursorRow := C.Clamp(0, cursorRow, |items| - 1);
        if |itemViews| > 0 {
          cursorColumn := C.Clamp(0, cursorColumn, |itemViews[0]| - 1);
        } else {
          cursorColumn := 0;
        }
      }
      UpdateYOffset();
    }

    /** `updateYOffset`. */
    method UpdateYOffset()
      modifies this
      ensures yOffset == ScrolledOffset(cursorRow * rowHeight, old(yOffset), ContentHeight())
      ensures items == old(items) && itemViews == old(itemViews) && columnDefinitions == old(columnDefinitions)
      ensures rowHeight == old(rowHeight) && cursorRow == old(cursorRow) && cursorColumn == old(cursorColumn)
      ensures width == old(width) && height == old(height)
    {
      var selected := cursorRow * rowHeight;
      if selected >= yOffset + ContentHeight() {
        yOffset := yOffset + (selected - (yOffset + ContentHeight()) + 1);
      } else if selected < yOffset {
        yOffset := yOffset - (yOffset - selected);
      }
    }

    /** `ColumnWidths`: the ratios' total, then each column's truncated share of the width.
        Without columns nothing is divided and there are no widths; with columns, a zero total
        makes the float quotient non-finite, so a non-zero total is required. */
    method ColumnWidths() returns (widths: seq<int>)
      requires columnDefinitions != [] ==> RatioSum(columnDefinitions) != 0
      ensures columnDefinitions == [] ==> widths == []
      ensures columnDefinitions != [] ==> widths == Shares(width, columnDefinitions, RatioSum(columnDefinitions))
    {
      var cols := columnDefinitions;
      var total := 0;
      for i := 0 to |cols|
        invariant total == RatioSum(cols[..i])
      {
        assert cols[..i + 1][..i] == cols[..i];
        total := total + cols[i].widthRatio;
      }
      assert cols[..|cols|] == cols;
      widths := [];
      for i := 0 to |cols|
        invariant |widths| == i
        invariant forall j :: 0 <= j < i ==> widths[j] == Share(width, cols[j], total)
      {
        widths := widths + [TruncQuotient(width * cols[i].widthRatio, total)];
      }
    }

    /** `SetItems`: keeps the items and renders each one's cells once, in order. */
    method SetItems(newItems: seq<T>, content: T -> seq<string>)
      modifies this
      ensures items == newItems && itemViews == Map(newItems, content)
      ensures columnDefinitions == old(columnDefinitions) && rowHeight == old(rowHeight)
      ensures cursorRow == old(cursorRow) && cursorColumn == old(cursorColumn) && yOffset == old(yOffset)
      ensures width == old(width) && height == old(height)
    {
      items := newItems;
      var views: seq<seq<string>> := [];
      for i := 0 to |newItems|
        invariant |views| == i
        invariant forall j :: 0 <= j < i ==> views[j] == content(newItems[j])
      {
        views := views + [content(newItems[i])];
      }
      itemViews := views;
    }

    /** `SelectedItem`: the item under the cursor, or none without items. Indexing a cursor
        that is off the items panics in the source, so the cursor must be on one. */
    function SelectedItem(): (r: Option<T>)
      reads this
      requires |items| > 0 ==> 0 <= cursorRow < |items|
      ensures r.None? <==> items == []
      ensures r.Some? ==> r.value == items[cursorRow]
    {
      if |items| > 0 then Some(items[cursorRow]) else None
    }
  }
}
