/**
 * `ODSHandler`: the spreadsheet's table rows, its automatic-styles
 * registry and the day-to-column map, updated in place by the handler's
 * methods. Each method is proved against the value-level definitions of
 * the Table, Cells, Sheet and Styles modules.
 */
module Ods {
  import opened Wrappers
  import opened Table
  import opened Cells
  import opened Sheet
  import opened Styles

  class OdsHandler {
    /** The `table:table-row` elements of the first table, in order. */
    var rows: seq<Row>
    /** The `office:automatic-styles` element's entries; None while the element is absent. */
    var autoStyles: Option<seq<Style>>
    /** `date_map`: a day (as a day number) to the column that shows it. */
    var dateMap: map<int, nat>
    /** The style names recorded by `ensure_styles`. */
    var amber: Option<string>
    var pink: Option<string>
    var green: Option<string>
    var grey: Option<string>

    /** The handler over an already parsed document. */
    constructor (rows0: seq<Row>, styles0: Option<seq<Style>>)
      ensures rows == rows0 && autoStyles == styles0 && dateMap == map[]
      ensures amber == None && pink == None && green == None && grey == None
    {
      rows := rows0;
      autoStyles := styles0;
      dateMap := map[];
      amber, pink, green, grey := None, None, None, None;
    }

    /**
     * `get_cell_node`: None for a missing row; otherwise extend the row
     * when `col` lies beyond it (or return None without `autoExtend`),
     * then find the run covering `col` and split it when it covers several
     * columns. Returns the index of the cell in its row.
     */
    method GetCellNode(rowIdx: nat, col: nat, autoExtend: bool) returns (found: Option<nat>)
      modifies this
      ensures rowIdx >= |old(rows)| ==> found.None? && rows == old(rows)
      ensures rowIdx < |old(rows)| ==>
                rows == old(rows)[rowIdx := Locate(old(rows)[rowIdx], col, autoExtend).row]
                && found == Locate(old(rows)[rowIdx], col, autoExtend).index
      ensures autoStyles == old(autoStyles) && dateMap == old(dateMap)
      ensures amber == old(amber) && pink == old(pink) && green == old(green) && grey == old(grey)
    {
      if rowIdx >= |rows| {
        return None;
      }
      var row;
      row, found := LocateCell(rows[rowIdx], col, autoExtend);
      rows := rows[rowIdx := row];
    }

    /**
     * `update_cell_text`: locate the cell (extending the row), drop its
     * paragraphs, add one holding the text when the text is non-empty, and
     * set the style when one is given.
     */
    method UpdateCellText(rowIdx: nat, col: nat, text: string, style: Option<string>)
      modifies this
      ensures rowIdx >= |old(rows)| ==> rows == old(rows)
      ensures rowIdx < |old(rows)| ==> rows == old(rows)[rowIdx := WriteText(old(rows)[rowIdx], col, text, style)]
      ensures autoStyles == old(autoStyles) && dateMap == old(dateMap)
      ensures amber == old(amber) && pink == old(pink) && green == old(green) && grey == old(grey)
    {
      var found := GetCellNode(rowIdx, col, true);
      assert rowIdx < |old(rows)| ==> found.Some? && found.value < |rows[rowIdx]| by {
        if rowIdx < |old(rows)| {
          LocateFindsColumn(old(rows)[rowIdx], col, true);
        }
      }
      if found.Some? {
        var k := found.value;
        var c := RewriteCell(rows[rowIdx][k], text, style);
        rows := rows[rowIdx := rows[rowIdx][k := c]];
      }
    }

    /**
     * `apply_row_style`: for each column from `start` to `end` inclusive,
     * locate the cell (extending the row) and set its style, unless not
     * forced and its current style is in a non-empty exclude list. A
     * missing row is left alone, as `get_cell_node` finds no cell in it.
     */
    method ApplyRowStyle(rowIdx: nat, start: nat, end: int, style: string, exclude: seq<string>, force: bool)
      modifies this
      ensures rowIdx >= |old(rows)| ==> rows == old(rows)
      ensures rowIdx < |old(rows)| ==>
                rows == old(rows)[rowIdx := StyleColumns(old(rows)[rowIdx], start, if end >= start then end - start + 1 else 0, style, exclude, force)]
      ensures autoStyles == old(autoStyles) && dateMap == old(dateMap)
      ensures amber == old(amber) && pink == old(pink) && green == old(green) && grey == old(grey)
    {
      if rowIdx >= |rows| {
        return;
      }
      var n: nat := if end >= start then end - start + 1 else 0;
      var row := StyleRange(rows[rowIdx], start, n, style, exclude, force);
      rows := rows[rowIdx := row];
    }

    /**
     * `_create_style`: create the automatic-styles element if missing,
     * return the name at once when an entry already has it, else append a
     * new entry.
     */
    method CreateStyle(name: string, background: string, fontSize: Option<string>) returns (r: string)
      modifies this
      ensures r == name
      ensures autoStyles == Some(WithStyle(old(autoStyles), name, background, fontSize))
      ensures rows == old(rows) && dateMap == old(dateMap)
      ensures amber == old(amber) && pink == old(pink) && green == old(green) && grey == old(grey)
    {
      var styles := autoStyles.GetOr([]);
      autoStyles := Some(styles);
      var i := 0;
      while i < |styles|
        invariant 0 <= i <= |styles|
        invariant forall j :: 0 <= j < i ==> styles[j].name != Some(name)
      {
        if styles[i].name == Some(name) {
          return name;
        }
        i := i + 1;
      }
      autoStyles := Some(styles + [NewStyle(name, background, fontSize)]);
      return name;
    }

    /** `ensure_styles`: the four holiday and row styles, created in order. */
    method EnsureStyles()
      modifies this
      ensures autoStyles == Some(EnsureAll(old(autoStyles)))
      ensures amber == Some(AmberName) && pink == Some(PinkName) && green == Some(GreenName) && grey == Some(GreyName)
      ensures rows == old(rows) && dateMap == old(dateMap)
    {
      var a := CreateStyle(AmberName, "#ffbf00", Some("6pt"));
      amber := Some(a);
      var p := CreateStyle(PinkName, "#ffb6c1", Some("6pt"));
      pink := Some(p);
      var g := CreateStyle(GreenName, "#ccffcc", None);
      green := Some(g);
      var y := CreateStyle(GreyName, "#808080", None);
      grey := Some(y);
    }

    /**
     * `generate_calendar_headers`: nothing without rows; otherwise append
     * one header cell per day to the first row, after its existing
     * columns, and record each day's column.
     */
    method GenerateCalendarHeaders(start: int, duration: int, dayLabel: int -> string)
      modifies this
      ensures |old(rows)| == 0 ==> rows == old(rows) && dateMap == old(dateMap)
      ensures |old(rows)| > 0 ==>
                var n := if duration > 0 then duration else 0;
                rows == old(rows)[0 := old(rows)[0] + HeaderCells(dayLabel, start, n)]
                && dateMap == DayColumns(old(dateMap), start, n, Width(old(rows)[0]))
      ensures autoStyles == old(autoStyles)
      ensures amber == old(amber) && pink == old(pink) && green == old(green) && grey == old(grey)
    {
      if |rows| == 0 {
        return;
      }
      var header := rows[0];
      var existing := ExpandRow(header);
      var w := |existing|;
      var n: nat := if duration > 0 then duration else 0;
      var i: nat := 0;
      assert header + HeaderCells(dayLabel, start, 0) == header;
      while i < n
        invariant i <= n
        invariant |rows| == |old(rows)|
        invariant rows == old(rows)[0 := header + HeaderCells(dayLabel, start, i)]
        invariant dateMap == DayColumns(old(dateMap), start, i, w)
        invariant autoStyles == old(autoStyles)
        invariant amber == old(amber) && pink == old(pink) && green == old(green) && grey == old(grey)
      {
        var cell := HeaderCell(dayLabel(start + i));
        assert HeaderCells(dayLabel, start, i + 1) == HeaderCells(dayLabel, start, i) + [cell];
        assert rows[0] + [cell] == header + HeaderCells(dayLabel, start, i + 1);
        rows := rows[0 := rows[0] + [cell]];
        dateMap := dateMap[start + i := w + i];
        i := i + 1;
      }
    }

    /** `get_countries`: the (row index, country name) pairs of the rows after the header. */
    method GetCountries() returns (countries: seq<(nat, string)>)
      ensures countries == Countries(rows)
    {
      countries := [];
      var i := 0;
      while i < |rows|
        invariant 0 <= i <= |rows|
        invariant countries == Countries(rows[..i])
      {
        assert rows[..i + 1][..i] == rows[..i];
        if i >= 1 {
          var row := rows[i];
          var name: Option<string> := None;
          var f := FindRun(row, CountryColumn);
          if f.Some? {
            name := CountryText(row[f.value.0]);
          }
          if name.Some? {
            countries := countries + [(i, name.value)];
          }
        }
        i := i + 1;
      }
      assert rows[..i] == rows;
    }
  }
}
