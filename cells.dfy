/**
 * What `ODSHandler` reads from and writes into a single cell: the text of
 * its first paragraph (`expand_row`), the country name of column D
 * (`get_countries`), the rewrite done by `update_cell_text`, and the
 * style rule of `apply_row_style`.
 */
module Cells {
  import opened Wrappers
  import opened Table

  /** `cell.find('text:p')`: the first paragraph child, if any. */
  function FirstPara(children: seq<Child>): Option<Para> {
    if children == [] then None
    else if children[0].P? then Some(children[0].para)
    else FirstPara(children[1..])
  }

  /** `FirstPara` finds a paragraph exactly when there is one, and it is the earliest. */
  lemma {:induction false} FirstParaSpec(children: seq<Child>)
    ensures FirstPara(children).None? <==> forall i :: 0 <= i < |children| ==> !children[i].P?
    ensures FirstPara(children).Some? ==>
              exists i :: 0 <= i < |children| && children[i] == P(FirstPara(children).value)
                          && forall j :: 0 <= j < i ==> !children[j].P?
  {
    if children != [] && !children[0].P? {
      FirstParaSpec(children[1..]);
      if FirstPara(children).Some? {
        var i :| 0 <= i < |children[1..]| && children[1..][i] == P(FirstPara(children).value)
                 && forall j :: 0 <= j < i ==> !children[1..][j].P?;
        assert children[i + 1] == P(FirstPara(children).value);
        assert forall j :: 0 <= j < i + 1 ==> !children[j].P? by {
          forall j | 0 <= j < i + 1 ensures !children[j].P? {
            if j > 0 { assert children[j] == children[1..][j - 1]; }
          }
        }
      } else {
        forall i | 0 <= i < |children| ensures !children[i].P? {
          if i > 0 { assert children[i] == children[1..][i - 1]; }
        }
      }
    } else if children != [] {
      assert children[0] == P(FirstPara(children).value);
    }
  }

  /**
   * The value `expand_row` reports for a cell: the text of its first
   * paragraph (which may itself be None, an element without text), or the
   * empty string when the cell has no paragraph.
   */
  function CellText(c: Cell): Option<string> {
    match FirstPara(c.children)
    case None => Some("")
    case Some(p) => p.text
  }

  /** The name `get_countries` takes from a cell: the first link's text if truthy, else the paragraph's text if truthy. */
  function CountryText(c: Cell): (r: Option<string>)
    ensures r.None? || Truthy(r)
  {
    match FirstPara(c.children)
    case None => None
    case Some(p) =>
      if p.anchor.Some? && Truthy(p.anchor.value.text) then p.anchor.value.text
      else if Truthy(p.text) then p.text
      else None
  }

  /** A linked name wins over the paragraph's own text; without a truthy link the paragraph text is used. */
  lemma CountryTextPrefersLink(c: Cell, p: Para)
    requires FirstPara(c.children) == Some(p)
    ensures p.anchor.Some? && Truthy(p.anchor.value.text) ==> CountryText(c) == p.anchor.value.text
    ensures !(p.anchor.Some? && Truthy(p.anchor.value.text)) ==>
              CountryText(c) == (if Truthy(p.text) then p.text else None)
    ensures CountryText(c).Some? ==> CountryText(c) == p.text || (p.anchor.Some? && CountryText(c) == p.anchor.value.text)
  {
  }

  /** The children that are not paragraphs, in order: what survives the clearing loop of `update_cell_text`. */
  function NonParas(children: seq<Child>): seq<Child> {
    if children == [] then []
    else (if children[0].P? then [] else [children[0]]) + NonParas(children[1..])
  }

  lemma {:induction false} NonParasSpec(children: seq<Child>)
    ensures forall i :: 0 <= i < |NonParas(children)| ==> !NonParas(children)[i].P?
    ensures forall x :: x in NonParas(children) <==> x in children && !x.P?
    ensures |NonParas(children)| <= |children|
  {
    if children != [] {
      NonParasSpec(children[1..]);
      assert children == [children[0]] + children[1..];
    }
  }

  lemma {:induction false} NonParasAppend(a: seq<Child>, b: seq<Child>)
    ensures NonParas(a + b) == NonParas(a) + NonParas(b)
    decreases |a|
  {
    if a == [] {
      assert a + b == b;
    } else {
      assert (a + b)[1..] == a[1..] + b;
      NonParasAppend(a[1..], b);
    }
  }

  /**
   * `NonParas` is the order-preserving filter: a single child is kept
   * exactly when it is not a paragraph (with `NonParasAppend` this fixes the
   * order), and every other child is kept as many times as it occurs.
   */
  lemma {:induction false} NonParasFilter(children: seq<Child>)
    ensures forall x: Child :: NonParas([x]) == if x.P? then [] else [x]
    ensures forall x: Child :: multiset(NonParas(children))[x] == if x.P? then 0 else multiset(children)[x]
  {
    forall x: Child
      ensures NonParas([x]) == if x.P? then [] else [x]
    {
      assert [x][1..] == [];
    }
    if children != [] {
      NonParasFilter(children[1..]);
      assert children == [children[0]] + children[1..];
    }
  }

  /** A cell after `update_cell_text`: paragraphs cleared, new text and value type when the text is non-empty, style when given. */
  function Rewritten(c: Cell, text: string, style: Option<string>): Cell {
    var kept := NonParas(c.children);
    var children := if text != "" then kept + [P(Para(Some(text), None))] else kept;
    var typed := if text != "" then c.attrs[ValueTypeAttr := "string"] else c.attrs;
    var attrs := if Truthy(style) then typed[StyleNameAttr := style.value] else typed;
    Cell(attrs, c.repeat, children)
  }

  /**
   * What `update_cell_text` promises: at most one paragraph remains, holding
   * exactly the new text, so reading the cell back gives the text written;
   * the other children, the repeat count and the untouched attributes stay.
   */
  lemma RewrittenReadsBack(c: Cell, text: string, style: Option<string>)
    ensures var r := Rewritten(c, text, style);
            CellText(r) == Some(text)
            && (forall i :: 0 <= i < |r.children| && r.children[i].P? ==>
                  text != "" && r.children[i] == P(Para(Some(text), None)))
            && NonParas(r.children) == NonParas(c.children)
            && r.repeat == c.repeat
            && (text != "" ==> ValueTypeAttr in r.attrs && r.attrs[ValueTypeAttr] == "string")
            && (text == "" ==> (ValueTypeAttr in r.attrs <==> ValueTypeAttr in c.attrs)
                               && (ValueTypeAttr in c.attrs ==> r.attrs[ValueTypeAttr] == c.attrs[ValueTypeAttr]))
            && (Truthy(style) ==> r.attrs[StyleNameAttr] == style.value)
            && (!Truthy(style) ==> (StyleNameAttr in r.attrs <==> StyleNameAttr in c.attrs)
                                   && (StyleNameAttr in c.attrs ==> r.attrs[StyleNameAttr] == c.attrs[StyleNameAttr]))
            && (!Truthy(style) && text == "" ==> r.attrs == c.attrs)
            && (forall a :: a != ValueTypeAttr && a != StyleNameAttr ==> (a in r.attrs <==> a in c.attrs) && (a in c.attrs ==> r.attrs[a] == c.attrs[a]))
  {
    RewrittenChildren(c, text, style);
    RewrittenAttrs(c, text, style);
  }

  /** The children half of `RewrittenReadsBack`: paragraphs replaced by the one holding the text. */
  lemma RewrittenChildren(c: Cell, text: string, style: Option<string>)
    ensures var r := Rewritten(c, text, style);
            CellText(r) == Some(text)
            && (forall i :: 0 <= i < |r.children| && r.children[i].P? ==>
                  text != "" && r.children[i] == P(Para(Some(text), None)))
            && NonParas(r.children) == NonParas(c.children)
            && r.repeat == c.repeat
  {
    var r := Rewritten(c, text, style);
    var kept := NonParas(c.children);
    NonParasSpec(c.children);
    if text != "" {
      NonParasAppend(kept, [P(Para(Some(text), None))]);
      NonParasSpec(kept);
      assert NonParas(kept) == kept by { NonParasOfPlain(kept); }
      assert NonParas([P(Para(Some(text), None))]) == [];
      FirstParaAfterPlain(kept, P(Para(Some(text), None)));
    } else {
      NonParasOfPlain(kept);
      FirstParaSpec(kept);
    }
  }

  /** The attribute half of `RewrittenReadsBack`: the value type and the style name change, nothing else. */
  lemma RewrittenAttrs(c: Cell, text: string, style: Option<string>)
    ensures var r := Rewritten(c, text, style);
            (text != "" ==> ValueTypeAttr in r.attrs && r.attrs[ValueTypeAttr] == "string")
            && (text == "" ==> (ValueTypeAttr in r.attrs <==> ValueTypeAttr in c.attrs)
                               && (ValueTypeAttr in c.attrs ==> r.attrs[ValueTypeAttr] == c.attrs[ValueTypeAttr]))
            && (Truthy(style) ==> r.attrs[StyleNameAttr] == style.value)
            && (!Truthy(style) ==> (StyleNameAttr in r.attrs <==> StyleNameAttr in c.attrs)
                                   && (StyleNameAttr in c.attrs ==> r.attrs[StyleNameAttr] == c.attrs[StyleNameAttr]))
            && (!Truthy(style) && text == "" ==> r.attrs == c.attrs)
            && (forall a :: a != ValueTypeAttr && a != StyleNameAttr ==> (a in r.attrs <==> a in c.attrs) && (a in c.attrs ==> r.attrs[a] == c.attrs[a]))
  {
    assert StyleNameAttr != ValueTypeAttr by { assert StyleNameAttr[0] != ValueTypeAttr[0]; }
  }

  /**
   * The cell-level body of `update_cell_text`: remove every paragraph
   * child, then append one holding the text and mark the value type when
   * the text is non-empty, then set the style when it is truthy.
   */
  method RewriteCell(c: Cell, text: string, style: Option<string>) returns (r: Cell)
    ensures r == Rewritten(c, text, style)
  {
    var children := c.children;
    var kept: seq<Child> := [];
    var i := 0;
    while i < |children|
      invariant 0 <= i <= |children|
      invariant kept == NonParas(children[..i])
    {
      NonParasAppend(children[..i], [children[i]]);
      assert children[..i + 1] == children[..i] + [children[i]];
      if !children[i].P? {
        kept := kept + [children[i]];
      }
      i := i + 1;
    }
    assert children[..i] == children;
    var attrs := c.attrs;
    if text != "" {
      kept := kept + [P(Para(Some(text), None))];
      attrs := attrs[ValueTypeAttr := "string"];
    }
    if style.Some? && style.value != "" {
      attrs := attrs[StyleNameAttr := style.value];
    }
    r := Cell(attrs, c.repeat, kept);
  }

  /** Children without paragraphs are their own `NonParas`. */
  lemma {:induction false} NonParasOfPlain(children: seq<Child>)
    requires forall i :: 0 <= i < |children| ==> !children[i].P?
    ensures NonParas(children) == children
  {
    if children != [] {
      NonParasOfPlain(children[1..]);
      assert children == [children[0]] + children[1..];
    }
  }

  /** The first paragraph after a run of non-paragraphs. */
  lemma {:induction false} FirstParaAfterPlain(children: seq<Child>, x: Child)
    requires forall i :: 0 <= i < |children| ==> !children[i].P?
    requires x.P?
    ensures FirstPara(children + [x]) == Some(x.para)
  {
    if children != [] {
      assert (children + [x])[1..] == children[1..] + [x];
      FirstParaAfterPlain(children[1..], x);
    } else {
      assert children + [x] == [x];
    }
  }

  /** The value of `table:style-name`, if set. */
  function StyleOf(c: Cell): Option<string> {
    if StyleNameAttr in c.attrs then Some(c.attrs[StyleNameAttr]) else None
  }

  /** `apply_row_style` leaves a cell alone when not forced, the exclude list is non-empty and the cell's style is in it. */
  predicate Skipped(c: Cell, exclude: seq<string>, force: bool) {
    !force && |exclude| > 0 && StyleOf(c).Some? && StyleOf(c).value in exclude
  }

  /** The cell with `table:style-name` set. */
  function Restyle(c: Cell, style: string): (r: Cell)
    ensures StyleOf(r) == Some(style)
    ensures r.repeat == c.repeat && r.children == c.children
    ensures forall a :: a != StyleNameAttr ==> (a in r.attrs <==> a in c.attrs) && (a in c.attrs ==> r.attrs[a] == c.attrs[a])
  {
    c.(attrs := c.attrs[StyleNameAttr := style])
  }

  /** The cell after one step of `apply_row_style`: restyled unless skipped. */
  function Styled(c: Cell, style: string, exclude: seq<string>, force: bool): Cell {
    if Skipped(c, exclude, force) then c else Restyle(c, style)
  }

  /** After the step the cell carries the new style, or kept a style from the exclude list (only when not forced). */
  lemma StyledOutcome(c: Cell, style: string, exclude: seq<string>, force: bool)
    ensures var r := Styled(c, style, exclude, force);
            (StyleOf(r) == Some(style) || (!force && StyleOf(r).Some? && StyleOf(r).value in exclude))
            && (force || exclude == [] || StyleOf(c).None? || StyleOf(c).value !in exclude ==> StyleOf(r) == Some(style))
            && Count(r) == Count(c)
  {
  }

  /** The values `expand_row` reports for a sequence of columns. */
  function Texts(cols: seq<Cell>): (r: seq<Option<string>>)
    ensures |r| == |cols| && forall j :: 0 <= j < |cols| ==> r[j] == CellText(cols[j])
  {
    seq(|cols|, j requires 0 <= j < |cols| => CellText(cols[j]))
  }

  /**
   * `expand_row`: one value per logical column, the text of the run that
   * covers it.
   */
  method ExpandRow(row: Row) returns (texts: seq<Option<string>>)
    ensures |texts| == Width(row)
    ensures forall col :: 0 <= col < Width(row) ==> texts[col] == CellText(row[RunIndex(row, col)])
  {
    texts := [];
    var i := 0;
    while i < |row|
      invariant 0 <= i <= |row|
      invariant texts == Texts(Columns(row[..i]))
    {
      var c := row[i];
      var count := Count(c);
      var t := CellText(c);
      var before := texts;
      var j := 0;
      while j < count
        invariant 0 <= j <= count
        invariant texts == before + Texts(Repeat(c, j))
      {
        texts := texts + [t];
        j := j + 1;
      }
      ColumnsStep(row, i);
      i := i + 1;
    }
    assert row[..i] == row;
    ColumnsLength(row);
    forall col | 0 <= col < Width(row)
      ensures texts[col] == CellText(row[RunIndex(row, col)])
    {
      ColumnsCover(row, col);
    }
  }

  /** One more run of the row adds its expanded columns. */
  lemma ColumnsStep(row: Row, i: nat)
    requires i < |row|
    ensures Texts(Columns(row[..i + 1])) == Texts(Columns(row[..i])) + Texts(Repeat(row[i], Count(row[i])))
  {
    assert row[..i + 1][..i] == row[..i];
  }
}
