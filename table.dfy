/**
 * The spreadsheet row model behind `ODSHandler`: a row is the sequence of
 * its `table:table-cell` elements, and each cell covers
 * `number-columns-repeated` logical columns, or one when the attribute is
 * missing or empty. The repeat count is kept apart from the other
 * attributes; every other attribute is a string map entry.
 */
module Table {
  import opened Wrappers

  /** The first `text:a` of a paragraph, with its text (None when it has none). */
  datatype Anchor = Anchor(text: Option<string>)

  /** A `text:p`: its leading text and its first `text:a` child, if any. */
  datatype Para = Para(text: Option<string>, anchor: Option<Anchor>)

  /** A child element of a cell: a paragraph, or anything else (kept by name). */
  datatype Child = P(para: Para) | Other(tag: string)

  /** A `table:table-cell`: attributes other than the repeat count, the repeat count, children. */
  datatype Cell = Cell(attrs: map<string, string>, repeat: Option<nat>, children: seq<Child>)

  type Row = seq<Cell>

  const StyleNameAttr := "table:style-name"
  const ValueTypeAttr := "office:value-type"

  /** `int(repeated) if repeated else 1`. */
  function Count(c: Cell): nat {
    if c.repeat.Some? then c.repeat.value else 1
  }

  /** The number of logical columns the row covers. */
  function Width(row: Row): nat {
    if row == [] then 0 else Width(row[..|row| - 1]) + Count(row[|row| - 1])
  }

  /** Run `k` covers logical column `col`. */
  predicate Covers(row: Row, k: int, col: int) {
    0 <= k < |row| && Width(row[..k]) <= col < Width(row[..k]) + Count(row[k])
  }

  lemma WidthSnoc(row: Row, c: Cell)
    ensures Width(row + [c]) == Width(row) + Count(c)
  {
    assert (row + [c])[..|row|] == row;
  }

  lemma {:induction false} WidthAppend(a: Row, b: Row)
    ensures Width(a + b) == Width(a) + Width(b)
    decreases |b|
  {
    if b != [] {
      var b' := b[..|b| - 1];
      assert a + b == (a + b') + [b[|b| - 1]];
      WidthAppend(a, b');
      WidthSnoc(a + b', b[|b| - 1]);
    } else {
      assert a + b == a;
    }
  }

  /** Prefix widths grow with the prefix. */
  lemma WidthPrefixMono(row: Row, i: nat, j: nat)
    requires i <= j <= |row|
    ensures Width(row[..i]) + (if i < j then Count(row[i]) else 0) <= Width(row[..j])
  {
    if i < j {
      assert row[..j] == row[..i] + [row[i]] + row[i + 1..j];
      WidthAppend(row[..i] + [row[i]], row[i + 1..j]);
      WidthSnoc(row[..i], row[i]);
    }
  }

  /** At most one run covers a column. */
  lemma CoversUnique(row: Row, k1: int, k2: int, col: int)
    requires Covers(row, k1, col) && Covers(row, k2, col)
    ensures k1 == k2
  {
    if k1 < k2 {
      WidthPrefixMono(row, k1, k2);
    } else if k2 < k1 {
      WidthPrefixMono(row, k2, k1);
    }
  }

  /** The run covering `col`, for a column inside the row. */
  function RunIndex(row: Row, col: nat): (k: nat)
    requires col < Width(row)
    ensures Covers(row, k, col)
    decreases |row|
  {
    var init := row[..|row| - 1];
    if col >= Width(init) then |row| - 1
    else
      var k := RunIndex(init, col);
      assert row[..k] == init[..k];
      k
  }

  /** `n` copies of `c`. */
  function Repeat(c: Cell, n: nat): (r: seq<Cell>)
    ensures |r| == n && forall j :: 0 <= j < n ==> r[j] == c
  {
    seq(n, _ => c)
  }

  /** The cell seen in each logical column, runs expanded. */
  function Columns(row: Row): seq<Cell> {
    if row == [] then [] else Columns(row[..|row| - 1]) + Repeat(row[|row| - 1], Count(row[|row| - 1]))
  }

  lemma {:induction false} ColumnsLength(row: Row)
    ensures |Columns(row)| == Width(row)
    decreases |row|
  {
    if row != [] {
      ColumnsLength(row[..|row| - 1]);
    }
  }

  lemma {:induction false} ColumnsAppend(a: Row, b: Row)
    ensures Columns(a + b) == Columns(a) + Columns(b)
    decreases |b|
  {
    if b != [] {
      var b' := b[..|b| - 1];
      assert a + b == (a + b') + [b[|b| - 1]];
      assert (a + b)[..|a + b| - 1] == a + b';
      ColumnsAppend(a, b');
    } else {
      assert a + b == a;
    }
  }

  /** What `Columns` means: column `col` shows the run that covers it. */
  lemma {:induction false} ColumnsCover(row: Row, col: nat)
    requires col < Width(row)
    ensures |Columns(row)| == Width(row)
    ensures Columns(row)[col] == row[RunIndex(row, col)]
    decreases |row|
  {
    ColumnsLength(row);
    var init := row[..|row| - 1];
    ColumnsLength(init);
    if col < Width(init) {
      ColumnsCover(init, col);
      var k := RunIndex(init, col);
      assert Covers(row, k, col) by {
        assert row[..k] == init[..k];
      }
      CoversUnique(row, k, RunIndex(row, col), col);
    } else {
      assert Covers(row, |row| - 1, col);
      CoversUnique(row, |row| - 1, RunIndex(row, col), col);
    }
  }

  lemma ColumnsSingle(c: Cell)
    ensures Columns([c]) == Repeat(c, Count(c))
  {
    assert [c][..0] == [];
  }

  /** A fresh empty cell covering `n` columns; the repeat attribute is written only when `n > 1`. */
  function Blank(n: nat): Cell {
    Cell(map[], if n > 1 then Some(n) else None, [])
  }

  /** The row after the auto-extend step: one blank run reaching column `col`, if the row is short. */
  function Extended(row: Row, col: nat): Row {
    if col >= Width(row) then row + [Blank(col - Width(row) + 1)] else row
  }

  lemma ExtendedWidth(row: Row, col: nat)
    ensures Width(Extended(row, col)) == if col >= Width(row) then col + 1 else Width(row)
  {
    if col >= Width(row) {
      WidthSnoc(row, Blank(col - Width(row) + 1));
    }
  }

  /**
   * The cells that replace a run of several columns when its column `off`
   * is targeted: a run before, the single target, a run after. All three
   * are built from the run's attributes alone; its children are not copied.
   */
  function SplitRun(c: Cell, off: nat): seq<Cell>
    requires off < Count(c)
  {
    var post := Count(c) - off - 1;
    (if off > 0 then [Cell(c.attrs, Some(off), [])] else [])
    + [Cell(c.attrs, None, [])]
    + (if post > 0 then [Cell(c.attrs, Some(post), [])] else [])
  }

  /** The target's position among the replacement cells. */
  function SplitTarget(off: nat): nat {
    if off > 0 then 1 else 0
  }

  /** The three-way split keeps the run's width and attributes, and the target is a single column at `off`. */
  lemma SplitRunShape(c: Cell, off: nat)
    requires off < Count(c)
    ensures var r := SplitRun(c, off);
            Width(r) == Count(c)
            && SplitTarget(off) < |r| && r[SplitTarget(off)] == Cell(c.attrs, None, [])
            && Width(r[..SplitTarget(off)]) == off
            && (forall j :: 0 <= j < |r| ==> r[j].attrs == c.attrs && r[j].children == [])
            && (forall j :: 0 <= j < |r| && j != SplitTarget(off) ==> r[j].repeat.Some? && r[j].repeat.value > 0)
  {
    var post := Count(c) - off - 1;
    var pre := if off > 0 then [Cell(c.attrs, Some(off), [])] else [];
    var tail := if post > 0 then [Cell(c.attrs, Some(post), [])] else [];
    var r := pre + [Cell(c.attrs, None, [])] + tail;
    assert r == SplitRun(c, off);
    WidthAppend(pre + [Cell(c.attrs, None, [])], tail);
    WidthSnoc(pre, Cell(c.attrs, None, []));
    assert r[..SplitTarget(off)] == pre;
    if off > 0 {
      assert Width(pre) == off by { WidthSnoc([], pre[0]); assert [] + [pre[0]] == pre; }
    }
    if post > 0 {
      assert Width(tail) == post by { WidthSnoc([], tail[0]); assert [] + [tail[0]] == tail; }
    }
  }

  /** Every column of the split run keeps the run's attributes and has no children. */
  lemma SplitRunColumns(c: Cell, off: nat)
    requires off < Count(c)
    ensures |Columns(SplitRun(c, off))| == Count(c)
    ensures forall j :: 0 <= j < Count(c) ==>
              Columns(SplitRun(c, off))[j].attrs == c.attrs && Columns(SplitRun(c, off))[j].children == []
  {
    var r := SplitRun(c, off);
    SplitRunShape(c, off);
    ColumnsLength(r);
    forall j | 0 <= j < Count(c)
      ensures Columns(r)[j].attrs == c.attrs && Columns(r)[j].children == []
    {
      ColumnsCover(r, j);
    }
  }

  /** Where `get_cell_node` leaves the row, and the index of the cell it returns (None when it returns None). */
  datatype Located = Located(row: Row, index: Option<nat>)

  /**
   * `get_cell_node` on one row: extend the row if asked to and needed,
   * find the run covering `col`, and split it when it covers several
   * columns.
   */
  function Locate(row: Row, col: nat, autoExtend: bool): Located {
    if col >= Width(row) && !autoExtend then Located(row, None)
    else
      ExtendedWidth(row, col);
      Found(Extended(row, col), col)
  }

  /** Find the run covering `col` in a row wide enough, and split it when it covers several columns. */
  function Found(r: Row, col: nat): Located
    requires col < Width(r)
  {
    var k := RunIndex(r, col);
    if Count(r[k]) > 1 then
      var off := col - Width(r[..k]);
      Located(r[..k] + SplitRun(r[k], off) + r[k + 1..], Some(k + SplitTarget(off)))
    else Located(r, Some(k))
  }

  /** The run containing column `col` rebuilt as before-run, single target, after-run; the width is unchanged. */
  lemma SplitInRow(r: Row, k: nat, off: nat)
    requires k < |r| && off < Count(r[k])
    ensures var n := r[..k] + SplitRun(r[k], off) + r[k + 1..];
            Width(n) == Width(r)
            && k + SplitTarget(off) < |n|
            && n[..k + SplitTarget(off)] == r[..k] + SplitRun(r[k], off)[..SplitTarget(off)]
            && n[k + SplitTarget(off)] == Cell(r[k].attrs, None, [])
            && Width(n[..k + SplitTarget(off)]) == Width(r[..k]) + off
  {
    var c := r[k];
    var sp := SplitRun(c, off);
    var t := SplitTarget(off);
    var n := r[..k] + sp + r[k + 1..];
    SplitRunShape(c, off);
    assert r == r[..k] + [c] + r[k + 1..];
    WidthAppend(r[..k] + [c], r[k + 1..]);
    WidthSnoc(r[..k], c);
    WidthAppend(r[..k] + sp, r[k + 1..]);
    WidthAppend(r[..k], sp);
    assert n[..k + t] == r[..k] + sp[..t];
    WidthAppend(r[..k], sp[..t]);
  }

  /** The cell found covers exactly column `col`, and the width is unchanged. */
  lemma FoundColumn(r: Row, col: nat)
    requires col < Width(r)
    ensures var l := Found(r, col);
            l.index.Some? && l.index.value < |l.row|
            && Covers(l.row, l.index.value, col) && Count(l.row[l.index.value]) == 1
            && Width(l.row) == Width(r)
  {
    var k := RunIndex(r, col);
    if Count(r[k]) > 1 {
      SplitInRow(r, k, col - Width(r[..k]));
    }
  }

  /**
   * `get_cell_node` returns None only when the column is beyond the row
   * and extending is off, and then changes nothing. Otherwise the returned
   * cell covers exactly column `col`, and the row is exactly wide enough
   * to hold it.
   */
  lemma LocateFindsColumn(row: Row, col: nat, autoExtend: bool)
    ensures col >= Width(row) && !autoExtend ==> Locate(row, col, autoExtend) == Located(row, None)
    ensures col < Width(row) || autoExtend ==>
              var l := Locate(row, col, autoExtend);
              l.index.Some? && l.index.value < |l.row|
              && Covers(l.row, l.index.value, col) && Count(l.row[l.index.value]) == 1
              && Width(l.row) == (if col < Width(row) then Width(row) else col + 1)
  {
    if col < Width(row) || autoExtend {
      ExtendedWidth(row, col);
      FoundColumn(Extended(row, col), col);
    }
  }

  /**
   * Past the end with extending on: the appended blank run is split so
   * that a single empty cell sits at `col`, after one run of the gap
   * (when there is a gap). The existing cells are untouched.
   */
  lemma LocateExtends(row: Row, col: nat)
    requires col >= Width(row)
    ensures var w := Width(row);
            Locate(row, col, true)
            == Located(row + (if col > w then [Cell(map[], Some(col - w), [])] else []) + [Cell(map[], None, [])],
                       Some(|row| + (if col > w then 1 else 0)))
  {
    var m := col - Width(row) + 1;
    var r := row + [Blank(m)];
    assert r[..|row|] == row;
    FoundInBlank(row, m, r, col);
    ExtendedWidth(row, col);
    assert Locate(row, col, true) == Found(r, col);
  }

  /** The row extended by a blank run of `m` columns, split at its last column. */
  lemma FoundInBlank(row: Row, m: nat, r: Row, col: nat)
    requires m >= 1 && |r| == |row| + 1 && r[..|row|] == row && r[|row|] == Blank(m)
    requires col == Width(r[..|row|]) + m - 1
    ensures col < Width(r)
    ensures Found(r, col)
            == Located(row + (if m > 1 then [Cell(map[], Some(m - 1), [])] else []) + [Cell(map[], None, [])],
                       Some(|row| + (if m > 1 then 1 else 0)))
  {
    FoundLastRun(r, col, |row|);
    if m > 1 {
      BlankSplit(row, m);
    } else {
      assert r == row + [] + [Cell(map[], None, [])];
    }
  }

  /** `Found` when the column lies in the last run of the row. */
  lemma FoundLastRun(r: Row, col: nat, k: nat)
    requires k == |r| - 1 && Width(r[..k]) <= col < Width(r[..k]) + Count(r[k])
    ensures col < Width(r)
    ensures Found(r, col) == if Count(r[k]) > 1 then Located(r[..k] + SplitRun(r[k], col - Width(r[..k])), Some(k + SplitTarget(col - Width(r[..k]))))
                             else Located(r, Some(k))
  {
    FoundAt(r, col, k);
    assert r[k + 1..] == [];
  }

  /** `Found` in terms of the run that covers the column. */
  lemma FoundAt(r: Row, col: nat, k: nat)
    requires Covers(r, k, col)
    ensures col < Width(r)
    ensures Found(r, col) == if Count(r[k]) > 1
                             then Located(r[..k] + SplitRun(r[k], col - Width(r[..k])) + r[k + 1..],
                                          Some(k + SplitTarget(col - Width(r[..k]))))
                             else Located(r, Some(k))
  {
    WidthPrefixMono(r, k, |r|);
    assert r[..|r|] == r;
    CoversUnique(r, k, RunIndex(r, col), col);
  }

  /** The split of a blank run at its last column. */
  lemma BlankSplit(row: Row, m: nat)
    requires m > 1
    ensures row + SplitRun(Blank(m), m - 1) == row + [Cell(map[], Some(m - 1), [])] + [Cell(map[], None, [])]
  {
    assert SplitRun(Blank(m), m - 1) == [Cell(map[], Some(m - 1), [])] + [Cell(map[], None, [])];
  }

  /**
   * Inside the row, `get_cell_node` keeps the width and every column's
   * attributes; columns outside the targeted run are untouched, and when
   * the run is split its columns lose their children.
   */
  lemma LocateKeepsColumns(row: Row, col: nat, autoExtend: bool)
    requires col < Width(row)
    ensures var l := Locate(row, col, autoExtend);
            Width(l.row) == Width(row) && |Columns(l.row)| == |Columns(row)| == Width(row)
    ensures var l := Locate(row, col, autoExtend);
            var k := RunIndex(row, col);
            (forall j :: 0 <= j < Width(row) ==> Columns(l.row)[j].attrs == Columns(row)[j].attrs)
            && (forall j :: 0 <= j < Width(row) && !Covers(row, k, j) ==> Columns(l.row)[j] == Columns(row)[j])
            && (Count(row[k]) > 1 ==> forall j :: 0 <= j < Width(row) && Covers(row, k, j) ==> Columns(l.row)[j].children == [])
            && (Count(row[k]) <= 1 ==> l.row == row)
  {
    assert Locate(row, col, autoExtend) == Found(row, col);
    FoundColumn(row, col);
    FoundKeepsColumns(row, col);
  }

  /** Replacing one run by other cells replaces its expanded columns and nothing else. */
  lemma ColumnsSplice(a: Row, c: Cell, b: Row, sp: Row)
    ensures Columns(a + [c] + b) == Columns(a) + Repeat(c, Count(c)) + Columns(b)
    ensures Columns(a + sp + b) == Columns(a) + Columns(sp) + Columns(b)
    ensures |Columns(a)| == Width(a)
  {
    ColumnsAppend(a + [c], b);
    ColumnsAppend(a, [c]);
    ColumnsSingle(c);
    ColumnsAppend(a + sp, b);
    ColumnsAppend(a, sp);
    ColumnsLength(a);
  }

  /** `Found` keeps every column's attributes and changes only the columns of the run it splits. */
  lemma FoundKeepsColumns(row: Row, col: nat)
    requires col < Width(row)
    ensures var l := Found(row, col);
            |Columns(l.row)| == |Columns(row)| == Width(row)
    ensures var l := Found(row, col);
            var k := RunIndex(row, col);
            (forall j :: 0 <= j < Width(row) ==> Columns(l.row)[j].attrs == Columns(row)[j].attrs)
            && (forall j :: 0 <= j < Width(row) && !Covers(row, k, j) ==> Columns(l.row)[j] == Columns(row)[j])
            && (Count(row[k]) > 1 ==> forall j :: 0 <= j < Width(row) && Covers(row, k, j) ==> Columns(l.row)[j].children == [])
            && (Count(row[k]) <= 1 ==> l.row == row)
  {
    var k := RunIndex(row, col);
    ColumnsLength(row);
    if Count(row[k]) > 1 {
      SplitKeepsColumns(row, k, col - Width(row[..k]));
    }
  }

  /** Splitting run `k` changes only the columns it covers, which keep its attributes and lose their children. */
  lemma SplitKeepsColumns(row: Row, k: nat, off: nat)
    requires k < |row| && off < Count(row[k])
    ensures var n := row[..k] + SplitRun(row[k], off) + row[k + 1..];
            |Columns(n)| == |Columns(row)| == Width(row)
            && (forall j :: 0 <= j < Width(row) ==> Columns(n)[j].attrs == Columns(row)[j].attrs)
            && (forall j :: 0 <= j < Width(row) && !Covers(row, k, j) ==> Columns(n)[j] == Columns(row)[j])
            && (forall j :: 0 <= j < Width(row) && Covers(row, k, j) ==> Columns(n)[j].children == [])
  {
    var c := row[k];
    var a, b, sp := row[..k], row[k + 1..], SplitRun(c, off);
    var n := a + sp + b;
    assert row == a + [c] + b;
    ColumnsLength(row);
    ColumnsSplice(a, c, b, sp);
    SplitRunColumns(c, off);
    var ca, cs, cb := Columns(a), Columns(sp), Columns(b);
    SpliceColumns(ca, cs, cb, c, Count(c));
    var lc, rc := Columns(n), Columns(row);
    assert lc == ca + cs + cb;
    assert rc == ca + Repeat(c, Count(c)) + cb;
    forall j | 0 <= j < Width(row)
      ensures lc[j].attrs == rc[j].attrs
      ensures !Covers(row, k, j) ==> lc[j] == rc[j]
      ensures Covers(row, k, j) ==> lc[j].children == []
    {
      assert Covers(row, k, j) <==> |ca| <= j < |ca| + Count(c);
    }
  }

  /** Splicing in cells that keep a run's attributes changes only that run's columns. */
  lemma SpliceColumns(ca: seq<Cell>, cs: seq<Cell>, cb: seq<Cell>, c: Cell, n: nat)
    requires |cs| == n
    requires forall j :: 0 <= j < n ==> cs[j].attrs == c.attrs && cs[j].children == []
    ensures |ca + cs + cb| == |ca + Repeat(c, n) + cb|
    ensures forall j :: 0 <= j < |ca + cs + cb| ==> (ca + cs + cb)[j].attrs == (ca + Repeat(c, n) + cb)[j].attrs
    ensures forall j :: 0 <= j < |ca + cs + cb| && !(|ca| <= j < |ca| + n) ==> (ca + cs + cb)[j] == (ca + Repeat(c, n) + cb)[j]
    ensures forall j :: |ca| <= j < |ca| + n ==> (ca + cs + cb)[j].children == []
  {
    var l, r := ca + cs + cb, ca + Repeat(c, n) + cb;
    forall j | 0 <= j < |l|
      ensures l[j].attrs == r[j].attrs
      ensures !(|ca| <= j < |ca| + n) ==> l[j] == r[j]
    {
      if j < |ca| {
        assert l[j] == ca[j] == r[j];
      } else if j < |ca| + n {
        assert l[j] == cs[j - |ca|];
        assert r[j] == c;
      } else {
        assert l[j] == cb[j - |ca| - n] == r[j];
      }
    }
  }

  /** Asking again for the same column finds the same cell and changes nothing. */
  lemma LocateIdempotent(row: Row, col: nat, autoExtend: bool, again: bool)
    requires col < Width(row) || autoExtend
    ensures var l := Locate(row, col, autoExtend);
            Locate(l.row, col, again) == l
  {
    var l := Locate(row, col, autoExtend);
    LocateFindsColumn(row, col, autoExtend);
    var i := l.index.value;
    assert Extended(l.row, col) == l.row;
    CoversUnique(l.row, i, RunIndex(l.row, col), col);
    assert Locate(l.row, col, again) == Found(l.row, col);
  }
}
