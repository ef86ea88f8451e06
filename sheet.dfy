/**
 * Row-level operations of `ODSHandler` on values: the run-walking loops of
 * `get_cell_node`, the effect of `update_cell_text` and of one column of
 * `apply_row_style`, the country column of `get_countries`, and the cells
 * and day map written by `generate_calendar_headers`.
 */
module Sheet {
  import opened Wrappers
  import opened Table
  import opened Cells

  /** The width loop of `get_cell_node`: the sum of the runs' counts. */
  method MeasureWidth(row: Row) returns (width: nat)
    ensures width == Width(row)
  {
    width := 0;
    var i := 0;
    while i < |row|
      invariant 0 <= i <= |row|
      invariant width == Width(row[..i])
    {
      WidthSnoc(row[..i], row[i]);
      assert row[..i + 1] == row[..i] + [row[i]];
      width := width + Count(row[i]);
      i := i + 1;
    }
    assert row[..i] == row;
  }

  /**
   * The search loop of `get_cell_node` (and of `get_countries`): walk the
   * runs keeping the first column of each, and stop at the run covering
   * `col`. Returns that run and its first column, or None past the end.
   */
  method FindRun(row: Row, col: nat) returns (found: Option<(nat, nat)>)
    ensures found.Some? <==> col < Width(row)
    ensures found.Some? ==> found.value.0 == RunIndex(row, col) && found.value.1 == Width(row[..found.value.0])
  {
    var current := 0;
    var i := 0;
    while i < |row|
      invariant 0 <= i <= |row|
      invariant current == Width(row[..i]) <= col
    {
      var count := Count(row[i]);
      if current <= col < current + count {
        assert Covers(row, i, col);
        FoundAt(row, col, i);
        CoversUnique(row, i, RunIndex(row, col), col);
        return Some((i, current));
      }
      WidthSnoc(row[..i], row[i]);
      assert row[..i + 1] == row[..i] + [row[i]];
      current := current + count;
      i := i + 1;
    }
    assert row[..i] == row;
    return None;
  }

  /**
   * `get_cell_node` on one row: measure the row, append a blank run
   * reaching `col` when the row is short (or give up without
   * `autoExtend`), find the run covering `col`, and replace a run of
   * several columns by its before-run, the single target and its
   * after-run. Returns the new row and the target's index.
   */
  method LocateCell(row: Row, col: nat, autoExtend: bool) returns (r: Row, found: Option<nat>)
    ensures Located(r, found) == Locate(row, col, autoExtend)
  {
    var width := MeasureWidth(row);
    r := row;
    if col >= width {
      if !autoExtend {
        return row, None;
      }
      var missing := col - width + 1;
      r := row + [Blank(missing)];
    }
    assert r == Extended(row, col);
    assert col < Width(r) by { ExtendedWidth(row, col); }
    assert Locate(row, col, autoExtend) == Found(r, col);
    var f := FindRun(r, col);
    var k := f.value.0;
    var first := f.value.1;
    var count := Count(r[k]);
    FoundAt(r, col, k);
    if count > 1 {
      var pre := col - first;
      var post := (first + count) - (col + 1);
      var base := r[k].attrs;
      var cells: seq<Cell> := [];
      if pre > 0 {
        cells := cells + [Cell(base, Some(pre), [])];
      }
      cells := cells + [Cell(base, None, [])];
      if post > 0 {
        cells := cells + [Cell(base, Some(post), [])];
      }
      assert cells == SplitRun(r[k], pre);
      r := r[..k] + cells + r[k + 1..];
      found := Some(k + SplitTarget(pre));
    } else {
      found := Some(k);
    }
  }

  /** Column D, the country column. */
  const CountryColumn: nat := 3

  /** The country name `get_countries` reads from a row, None when column D is missing or has no truthy name. */
  function CountryName(row: Row): Option<string> {
    if CountryColumn < Width(row) then CountryText(row[RunIndex(row, CountryColumn)]) else None
  }

  /** `get_countries`: a (row index, name) pair for every row after the header whose column D names a country. */
  function Countries(rows: seq<Row>): seq<(nat, string)> {
    if rows == [] then []
    else
      var i := |rows| - 1;
      var name := CountryName(rows[i]);
      Countries(rows[..i]) + (if i >= 1 && name.Some? then [(i, name.value)] else [])
  }

  /** A pair is listed exactly for a non-header row whose name it carries. */
  lemma {:induction false} CountriesSpec(rows: seq<Row>)
    ensures forall p: (nat, string) :: p in Countries(rows) <==> 1 <= p.0 < |rows| && CountryName(rows[p.0]) == Some(p.1)
    decreases |rows|
  {
    if rows != [] {
      var i := |rows| - 1;
      var init := rows[..i];
      CountriesSpec(init);
      assert forall j :: 0 <= j < i ==> rows[j] == init[j];
    }
  }

  /** Rows are listed in increasing order of index. */
  lemma {:induction false} CountriesOrdered(rows: seq<Row>)
    ensures forall a :: 0 <= a < |Countries(rows)| ==> Countries(rows)[a].0 < |rows|
    ensures forall a, b :: 0 <= a < b < |Countries(rows)| ==> Countries(rows)[a].0 < Countries(rows)[b].0
    decreases |rows|
  {
    if rows != [] {
      CountriesOrdered(rows[..|rows| - 1]);
    }
  }

  /** A row whose country cell holds a linked name is listed under the link's text. */
  lemma CountryFromLink(rows: seq<Row>, i: nat, p: Para)
    requires 1 <= i < |rows| && CountryColumn < Width(rows[i])
    requires FirstPara(rows[i][RunIndex(rows[i], CountryColumn)].children) == Some(p)
    requires p.anchor.Some? && Truthy(p.anchor.value.text)
    ensures (i, p.anchor.value.text.value) in Countries(rows)
  {
    CountriesSpec(rows);
  }

  /** `update_cell_text` on a row: locate (extending the row), then rewrite the cell found. */
  function WriteText(row: Row, col: nat, text: string, style: Option<string>): Row {
    LocateFindsColumn(row, col, true);
    var l := Locate(row, col, true);
    var k := l.index.value;
    l.row[k := Rewritten(l.row[k], text, style)]
  }

  /** Changing a single-column run changes exactly the column it covers. */
  lemma ColumnsUpdateSingle(row: Row, k: nat, col: nat, c: Cell)
    requires Covers(row, k, col) && Count(row[k]) == 1 && Count(c) == 1
    ensures col < Width(row) == |Columns(row)|
    ensures Columns(row[k := c]) == Columns(row)[col := c]
  {
    assert col < Width(row) by {
      FoundAt(row, col, k);
    }
    var a, b := row[..k], row[k + 1..];
    assert row == a + [row[k]] + b;
    assert row[k := c] == a + [c] + b;
    ColumnsSplice(a, row[k], b, [c]);
    ColumnsSingle(c);
    ColumnsLength(row);
  }

  /** A single-column run covering `col` is what the expanded row shows at `col`. */
  lemma SingleRunColumn(r: Row, k: nat, col: nat)
    requires Covers(r, k, col) && Count(r[k]) == 1
    ensures col < Width(r) && |Columns(r)| == Width(r) && Columns(r)[col] == r[k]
  {
    FoundAt(r, col, k);
    ColumnsLength(r);
    ColumnsCover(r, col);
    CoversUnique(r, k, RunIndex(r, col), col);
  }

  /** What the cell found by `get_cell_node` shows in the expanded row. */
  lemma LocatedColumn(row: Row, col: nat)
    ensures var l := Locate(row, col, true);
            l.index.Some? && l.index.value < |l.row|
            && Covers(l.row, l.index.value, col) && Count(l.row[l.index.value]) == 1
            && Width(l.row) == (if col < Width(row) then Width(row) else col + 1)
            && col < Width(l.row) && |Columns(l.row)| == Width(l.row)
            && Columns(l.row)[col] == l.row[l.index.value]
            && (col >= Width(row) ==> l.row[l.index.value] == Cell(map[], None, []))
  {
    var l := Locate(row, col, true);
    assert l.index.Some? && l.index.value < |l.row|
           && Covers(l.row, l.index.value, col) && Count(l.row[l.index.value]) == 1
           && Width(l.row) == (if col < Width(row) then Width(row) else col + 1) by {
      LocateFindsColumn(row, col, true);
    }
    var k := l.index.value;
    SingleRunColumn(l.row, k, col);
    if col >= Width(row) {
      assert l.row[k] == Cell(map[], None, []) by {
        LocateExtends(row, col);
      }
    }
  }

  /** `get_cell_node` keeps the attributes of every column that was already there; when extending, the whole old column. */
  lemma LocateKeepsAttrs(row: Row, col: nat, j: nat)
    requires j < Width(row)
    ensures var l := Locate(row, col, true);
            j < |Columns(l.row)| && j < |Columns(row)|
            && Columns(l.row)[j].attrs == Columns(row)[j].attrs
            && (col >= Width(row) ==> Columns(l.row)[j] == Columns(row)[j])
  {
    var l := Locate(row, col, true);
    ColumnsLength(row);
    if col < Width(row) {
      assert j < |Columns(l.row)| && Columns(l.row)[j].attrs == Columns(row)[j].attrs by {
        LocateKeepsColumns(row, col, true);
      }
    } else {
      var w := Width(row);
      var extra := (if col > w then [Cell(map[], Some(col - w), [])] else []) + [Cell(map[], None, [])];
      assert l.row == row + extra by {
        LocateExtends(row, col);
      }
      AppendKeepsColumns(row, extra, j);
    }
  }

  /** Appending cells leaves the columns already there alone. */
  lemma AppendKeepsColumns(row: Row, extra: Row, j: nat)
    requires j < Width(row)
    ensures j < |Columns(row + extra)| && j < |Columns(row)| && Columns(row + extra)[j] == Columns(row)[j]
  {
    ColumnsAppend(row, extra);
    ColumnsLength(row);
  }

  /**
   * After `update_cell_text`, `expand_row` reports exactly the text written
   * at that column, and every other column that existed keeps its
   * attributes.
   */
  lemma WriteTextEffect(row: Row, col: nat, text: string, style: Option<string>)
    ensures var r := WriteText(row, col, text, style);
            Width(r) == (if col < Width(row) then Width(row) else col + 1)
            && |Columns(r)| == Width(r) && |Columns(row)| == Width(row) && col < Width(r)
            && CellText(Columns(r)[col]) == Some(text)
            && (forall j :: 0 <= j < Width(row) && j != col ==> Columns(r)[j].attrs == Columns(row)[j].attrs)
  {
    var l := Locate(row, col, true);
    LocatedColumn(row, col);
    var k := l.index.value;
    var c := Rewritten(l.row[k], text, style);
    var r := l.row[k := c];
    assert r == WriteText(row, col, text, style);
    assert Count(c) == 1 && CellText(c) == Some(text) by {
      RewrittenReadsBack(l.row[k], text, style);
    }
    assert Columns(r) == Columns(l.row)[col := c] by {
      ColumnsUpdateSingle(l.row, k, col, c);
    }
    ColumnsLength(r);
    ColumnsLength(row);
    forall j | 0 <= j < Width(row) && j != col
      ensures Columns(r)[j].attrs == Columns(row)[j].attrs
    {
      LocateKeepsAttrs(row, col, j);
    }
  }

  /** One column of `apply_row_style`: locate (extending the row), then restyle the cell unless it is skipped. */
  function StyleStep(row: Row, col: nat, style: string, exclude: seq<string>, force: bool): Row {
    LocateFindsColumn(row, col, true);
    var l := Locate(row, col, true);
    var k := l.index.value;
    l.row[k := Styled(l.row[k], style, exclude, force)]
  }

  /**
   * One column of `apply_row_style` on a row: locate the cell (extending
   * the row), then set its style unless not forced and its current style
   * is in a non-empty exclude list.
   */
  method StyleColumn(row: Row, col: nat, style: string, exclude: seq<string>, force: bool) returns (next: Row)
    ensures next == StyleStep(row, col, style, exclude, force)
  {
    var located, found := LocateCell(row, col, true);
    assert found.Some? && found.value < |located| by { LocateFindsColumn(row, col, true); }
    var k := found.value;
    var cell := located[k];
    var current := StyleOf(cell);
    next := located;
    if !(!force && |exclude| > 0 && current.Some? && current.value in exclude) {
      next := located[k := Restyle(cell, style)];
    }
    StyleStepAt(row, col, style, exclude, force, located, k, next);
  }

  /** A row restyled at the cell `get_cell_node` located is one `StyleStep`. */
  lemma StyleStepAt(row: Row, col: nat, style: string, exclude: seq<string>, force: bool, located: Row, k: nat, next: Row)
    requires Locate(row, col, true) == Located(located, Some(k)) && k < |located|
    requires next == located[k := Styled(located[k], style, exclude, force)]
    ensures next == StyleStep(row, col, style, exclude, force)
  {
  }

  /**
   * `r` is `prev` after styling column `col`: the column carries the style
   * unless it existed and was skipped, and every other existing column
   * keeps its attributes.
   */
  predicate StyledColumn(prev: Row, r: Row, col: nat, style: string, exclude: seq<string>, force: bool) {
    Width(r) == (if col < Width(prev) then Width(prev) else col + 1)
    && |Columns(r)| == Width(r) && |Columns(prev)| == Width(prev) && col < Width(r)
    && StyleOf(Columns(r)[col])
       == (if col < Width(prev) && Skipped(Columns(prev)[col], exclude, force) then StyleOf(Columns(prev)[col]) else Some(style))
    && (forall j :: 0 <= j < Width(prev) && j != col ==> Columns(r)[j].attrs == Columns(prev)[j].attrs)
  }

  /** One column of `apply_row_style` styles that column and leaves the attributes of the others alone. */
  lemma StyleStepEffect(row: Row, col: nat, style: string, exclude: seq<string>, force: bool)
    ensures StyledColumn(row, StyleStep(row, col, style, exclude, force), col, style, exclude, force)
  {
    var l := Locate(row, col, true);
    LocatedColumn(row, col);
    var k := l.index.value;
    var before := l.row[k];
    var c := Styled(before, style, exclude, force);
    var r := l.row[k := c];
    assert r == StyleStep(row, col, style, exclude, force);
    assert Count(c) == 1 by {
      StyledOutcome(before, style, exclude, force);
    }
    assert Columns(r) == Columns(l.row)[col := c] by {
      ColumnsUpdateSingle(l.row, k, col, c);
    }
    ColumnsLength(r);
    ColumnsLength(row);
    if col < Width(row) {
      assert before.attrs == Columns(row)[col].attrs by {
        LocateKeepsAttrs(row, col, col);
      }
      assert StyleOf(before) == StyleOf(Columns(row)[col]);
    }
    forall j | 0 <= j < Width(row) && j != col
      ensures Columns(r)[j].attrs == Columns(row)[j].attrs
    {
      LocateKeepsAttrs(row, col, j);
    }
  }

  /** `step` applied to the columns `start .. start+n-1` in increasing order. */
  function EachColumn(row: Row, start: nat, n: nat, step: (Row, nat) -> Row): Row {
    if n == 0 then row else step(EachColumn(row, start, n - 1, step), start + n - 1)
  }

  /** One column of `apply_row_style` as a step function, for `EachColumn`. */
  function StyleColumnsStep(style: string, exclude: seq<string>, force: bool): (Row, nat) -> Row {
    (r: Row, col: nat) => StyleStep(r, col, style, exclude, force)
  }

  /** `apply_row_style` over the `n` columns from `start`. */
  function StyleColumns(row: Row, start: nat, n: nat, style: string, exclude: seq<string>, force: bool): Row {
    EachColumn(row, start, n, StyleColumnsStep(style, exclude, force))
  }

  /** The loop of `apply_row_style` on a row: apply `step` to the `n` columns from `start`, in order. */
  method ForEachColumn(row: Row, start: nat, n: nat, step: (Row, nat) -> Row) returns (r: Row)
    ensures r == EachColumn(row, start, n, step)
  {
    r := row;
    var i: nat := 0;
    while i < n
      invariant i <= n
      invariant r == EachColumn(row, start, i, step)
    {
      var next := step(r, start + i);
      EachColumnSnoc(row, start, i, step, r, next);
      r := next;
      i := i + 1;
    }
  }

  /** `apply_row_style` on a row: the loop over the columns from `start` with the column step of `StyleStep`. */
  method StyleRange(row: Row, start: nat, n: nat, style: string, exclude: seq<string>, force: bool) returns (r: Row)
    ensures r == StyleColumns(row, start, n, style, exclude, force)
  {
    r := ForEachColumn(row, start, n, StyleColumnsStep(style, exclude, force));
  }

  /** One more column step extends `EachColumn` by that step. */
  lemma EachColumnSnoc(row: Row, start: nat, n: nat, step: (Row, nat) -> Row, cur: Row, next: Row)
    requires cur == EachColumn(row, start, n, step)
    requires next == step(cur, start + n)
    ensures next == EachColumn(row, start, n + 1, step)
  {
  }

  /**
   * `r` is `row` after styling the columns `start .. start+n-1`: each
   * carries the new style, except a column that existed with a style from
   * a non-empty exclude list when not forced, which keeps it; every other
   * existing column keeps its attributes; the row grows just enough.
   */
  predicate StyledRange(row: Row, r: Row, start: nat, n: nat, style: string, exclude: seq<string>, force: bool) {
    Width(r) == (if n == 0 || start + n <= Width(row) then Width(row) else start + n)
    && |Columns(r)| == Width(r) && |Columns(row)| == Width(row)
    && (forall j :: start <= j < start + n ==>
          StyleOf(Columns(r)[j])
          == (if j < Width(row) && Skipped(Columns(row)[j], exclude, force) then StyleOf(Columns(row)[j]) else Some(style)))
    && (forall j :: 0 <= j < Width(row) && !(start <= j < start + n) ==> Columns(r)[j].attrs == Columns(row)[j].attrs)
  }

  /** Styling one more column extends the styled range by that column. */
  lemma StyledRangeStep(row: Row, prev: Row, r: Row, start: nat, n: nat, style: string, exclude: seq<string>, force: bool)
    requires n > 0
    requires StyledRange(row, prev, start, n - 1, style, exclude, force)
    requires StyledColumn(prev, r, start + n - 1, style, exclude, force)
    ensures StyledRange(row, r, start, n, style, exclude, force)
  {
    var col := start + n - 1;
    assert col < Width(prev) <==> col < Width(row);
    if col < Width(row) {
      assert Columns(prev)[col].attrs == Columns(row)[col].attrs;
      assert StyleOf(Columns(prev)[col]) == StyleOf(Columns(row)[col]);
    }
    forall j | start <= j < col
      ensures StyleOf(Columns(r)[j]) == StyleOf(Columns(prev)[j])
    {
      assert Columns(r)[j].attrs == Columns(prev)[j].attrs;
    }
  }

  /** Any column step that styles its column as `StyleStep` does styles the whole range. */
  lemma {:induction false} EachColumnStyles(row: Row, start: nat, n: nat, step: (Row, nat) -> Row,
                                            style: string, exclude: seq<string>, force: bool)
    requires forall r, col :: StyledColumn(r, step(r, col), col, style, exclude, force)
    ensures StyledRange(row, EachColumn(row, start, n, step), start, n, style, exclude, force)
    decreases n
  {
    if n == 0 {
      ColumnsLength(row);
    } else {
      var prev := EachColumn(row, start, n - 1, step);
      EachColumnStyles(row, start, n - 1, step, style, exclude, force);
      StyledRangeStep(row, prev, step(prev, start + n - 1), start, n, style, exclude, force);
    }
  }

  /**
   * What `apply_row_style` promises for the columns `start .. start+n-1`:
   * each carries the new style, except a column that existed with a style
   * from a non-empty exclude list when not forced, which keeps it. Every
   * other existing column keeps its attributes.
   */
  lemma StyleColumnsEffect(row: Row, start: nat, n: nat, style: string, exclude: seq<string>, force: bool)
    ensures StyledRange(row, StyleColumns(row, start, n, style, exclude, force), start, n, style, exclude, force)
  {
    var step := StyleColumnsStep(style, exclude, force);
    forall r, col ensures StyledColumn(r, step(r, col), col, style, exclude, force) {
      StyleStepEffect(r, col, style, exclude, force);
    }
    EachColumnStyles(row, start, n, step, style, exclude, force);
  }

  /** With `force`, every column of the range ends up with the style. */
  lemma ForcedStyleCoversRange(row: Row, start: nat, n: nat, style: string, exclude: seq<string>)
    ensures var r := StyleColumns(row, start, n, style, exclude, true);
            |Columns(r)| == Width(r) && (n > 0 ==> start + n <= Width(r))
            && forall j :: start <= j < start + n ==> StyleOf(Columns(r)[j]) == Some(style)
  {
    StyleColumnsEffect(row, start, n, style, exclude, true);
  }

  /** The header cell `generate_calendar_headers` creates: a string-typed cell with one paragraph. */
  function HeaderCell(title: string): Cell {
    Cell(map[ValueTypeAttr := "string"], None, [P(Para(Some(title), None))])
  }

  /** The `n` header cells for the days `start .. start+n-1`. */
  function HeaderCells(dayLabel: int -> string, start: int, n: nat): (r: Row)
    ensures |r| == n && forall i :: 0 <= i < n ==> r[i] == HeaderCell(dayLabel(start + i))
  {
    seq(n, i => HeaderCell(dayLabel(start + i)))
  }

  /** `date_map` after recording the days `start .. start+n-1` at the columns from `w`. */
  function DayColumns(m: map<int, nat>, start: int, n: nat, w: nat): map<int, nat> {
    if n == 0 then m else DayColumns(m, start, n - 1, w)[start + n - 1 := w + n - 1]
  }

  /** The recorded days map onto the contiguous columns `w .. w+n-1` in order; other entries stay. */
  lemma {:induction false} DayColumnsSpec(m: map<int, nat>, start: int, n: nat, w: nat)
    ensures forall d :: d in DayColumns(m, start, n, w) <==> d in m || start <= d < start + n
    ensures forall d :: start <= d < start + n ==> DayColumns(m, start, n, w)[d] == w + (d - start)
    ensures forall d :: d in m && !(start <= d < start + n) ==> DayColumns(m, start, n, w)[d] == m[d]
    decreases n
  {
    if n > 0 {
      DayColumnsSpec(m, start, n - 1, w);
    }
  }

  /**
   * The header row after `generate_calendar_headers`: the existing columns
   * unchanged, then one width-1 column per day whose text is the day's
   * dayLabel.
   */
  lemma HeaderColumns(row: Row, dayLabel: int -> string, start: int, n: nat)
    ensures Width(row + HeaderCells(dayLabel, start, n)) == Width(row) + n
    ensures |Columns(row + HeaderCells(dayLabel, start, n))| == Width(row) + n && |Columns(row)| == Width(row)
    ensures Columns(row + HeaderCells(dayLabel, start, n))[..Width(row)] == Columns(row)
    ensures forall j :: Width(row) <= j < Width(row) + n ==>
              Columns(row + HeaderCells(dayLabel, start, n))[j] == HeaderCell(dayLabel(start + (j - Width(row))))
  {
    var h := HeaderCells(dayLabel, start, n);
    ColumnsAppend(row, h);
    WidthAppend(row, h);
    ColumnsLength(row);
    ColumnsLength(h);
    ColumnsLength(row + h);
    HeaderWidth(dayLabel, start, n);
  }

  /** Header cells are single columns: their expansion is themselves. */
  lemma {:induction false} HeaderWidth(dayLabel: int -> string, start: int, n: nat)
    ensures Columns(HeaderCells(dayLabel, start, n)) == HeaderCells(dayLabel, start, n)
    ensures Width(HeaderCells(dayLabel, start, n)) == n
    decreases n
  {
    if n > 0 {
      var h := HeaderCells(dayLabel, start, n);
      assert h[..n - 1] == HeaderCells(dayLabel, start, n - 1);
      HeaderWidth(dayLabel, start, n - 1);
      assert Repeat(h[n - 1], 1) == [h[n - 1]];
    }
  }

  /** The day a header column of the new block stands for: the inverse of `DayColumns`. */
  function DayOfColumn(start: int, w: nat, col: nat): int {
    start + (col - w)
  }

  /**
   * The recorded days and the new columns correspond one to one: each day
   * of the range lands on a new column, every new column is the day `DayOfColumn` names,
   * and no two days share a column.
   */
  lemma DayColumnsBijection(m: map<int, nat>, start: int, n: nat, w: nat)
    ensures forall d :: start <= d < start + n ==>
              d in DayColumns(m, start, n, w) && w <= DayColumns(m, start, n, w)[d] < w + n
    ensures forall col :: w <= col < w + n ==> col in DayColumns(m, start, n, w).Values
    ensures forall col :: w <= col < w + n ==>
              var d := DayOfColumn(start, w, col);
              start <= d < start + n && d in DayColumns(m, start, n, w) && DayColumns(m, start, n, w)[d] == col
    ensures forall d1, d2 :: start <= d1 < start + n && start <= d2 < start + n ==>
              (DayColumns(m, start, n, w)[d1] == DayColumns(m, start, n, w)[d2] ==> d1 == d2)
  {
    var dm := DayColumns(m, start, n, w);
    DayColumnsSpec(m, start, n, w);
    forall col | w <= col < w + n
      ensures col in dm.Values
    {
      var d := DayOfColumn(start, w, col);
      assert d in dm && dm[d] == col;
    }
  }

  /** Each recorded day's column of the new header row shows that day's label. */
  lemma CalendarLabels(m: map<int, nat>, row: Row, dayLabel: int -> string, start: int, n: nat)
    ensures |Columns(row + HeaderCells(dayLabel, start, n))| == Width(row) + n
    ensures forall d :: start <= d < start + n ==>
              d in DayColumns(m, start, n, Width(row))
              && Width(row) <= DayColumns(m, start, n, Width(row))[d] < Width(row) + n
              && CellText(Columns(row + HeaderCells(dayLabel, start, n))[DayColumns(m, start, n, Width(row))[d]]) == Some(dayLabel(d))
  {
    HeaderColumns(row, dayLabel, start, n);
    DayColumnsSpec(m, start, n, Width(row));
    LabelsAt(Columns(row + HeaderCells(dayLabel, start, n)), DayColumns(m, start, n, Width(row)), dayLabel, start, n, Width(row));
  }

  /** The step of `CalendarLabels`, over any header columns and day map laid out as the calendar lays them out. */
  lemma LabelsAt(cols: seq<Cell>, dm: map<int, nat>, dayLabel: int -> string, start: int, n: nat, w: nat)
    requires |cols| == w + n
    requires forall j :: w <= j < w + n ==> cols[j] == HeaderCell(dayLabel(start + (j - w)))
    requires forall d :: start <= d < start + n ==> d in dm && dm[d] == w + (d - start)
    ensures forall d :: start <= d < start + n ==> d in dm && w <= dm[d] < w + n && CellText(cols[dm[d]]) == Some(dayLabel(d))
  {
    forall d | start <= d < start + n
      ensures d in dm && w <= dm[d] < w + n && CellText(cols[dm[d]]) == Some(dayLabel(d))
    {
      assert cols[dm[d]] == HeaderCell(dayLabel(d));
    }
  }
}
