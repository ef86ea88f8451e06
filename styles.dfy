/**
 * The `office:automatic-styles` registry as `_create_style` and
 * `ensure_styles` use it: a list of `style:style` entries that is looked
 * up by `style:name` and appended to. Only the name of an existing entry
 * is ever inspected.
 */
module Styles {
  import opened Wrappers

  /** A `style:style` entry: name, family, parent, background colour and optional font size. */
  datatype Style = Style(name: Option<string>, family: string, parent: string, background: string, fontSize: Option<string>)

  /** The entry `_create_style` appends; the text properties are written only for a truthy font size. */
  function NewStyle(name: string, background: string, fontSize: Option<string>): Style {
    Style(Some(name), "table-cell", "Default", background, if Truthy(fontSize) then fontSize else None)
  }

  predicate HasStyle(styles: seq<Style>, name: string) {
    exists i :: 0 <= i < |styles| && styles[i].name == Some(name)
  }

  /** No two named entries share a name. */
  predicate UniqueNames(styles: seq<Style>) {
    forall i, j :: 0 <= i < j < |styles| && styles[i].name.Some? ==> styles[i].name != styles[j].name
  }

  /**
   * The registry after `_create_style(name, ...)`: created empty when the
   * element is missing, unchanged when an entry already has the name,
   * otherwise extended by one new entry.
   */
  function WithStyle(registry: Option<seq<Style>>, name: string, background: string, fontSize: Option<string>): seq<Style> {
    var styles := registry.GetOr([]);
    if HasStyle(styles, name) then styles else styles + [NewStyle(name, background, fontSize)]
  }

  /** The old entries are kept in order, the name is then present, and at most the new entry is added. */
  lemma WithStyleExtends(registry: Option<seq<Style>>, name: string, background: string, fontSize: Option<string>)
    ensures var r := WithStyle(registry, name, background, fontSize);
            var styles := registry.GetOr([]);
            HasStyle(r, name)
            && styles <= r
            && (HasStyle(styles, name) <==> r == styles)
            && (!HasStyle(styles, name) <==> r == styles + [NewStyle(name, background, fontSize)])
  {
    var styles := registry.GetOr([]);
    var r := WithStyle(registry, name, background, fontSize);
    if !HasStyle(styles, name) {
      assert r[|styles|].name == Some(name);
      assert r != styles;
    }
  }

  /** Creating a style a second time, with any colour or size, changes nothing: `_create_style` is idempotent. */
  lemma WithStyleIdempotent(registry: Option<seq<Style>>, name: string, background: string, fontSize: Option<string>,
                            background2: string, fontSize2: Option<string>)
    ensures var once := WithStyle(registry, name, background, fontSize);
            WithStyle(Some(once), name, background2, fontSize2) == once
  {
    WithStyleExtends(registry, name, background, fontSize);
  }

  /** A registry whose names are unique keeps them unique. */
  lemma WithStyleKeepsUnique(registry: Option<seq<Style>>, name: string, background: string, fontSize: Option<string>)
    requires UniqueNames(registry.GetOr([]))
    ensures UniqueNames(WithStyle(registry, name, background, fontSize))
  {
    var styles := registry.GetOr([]);
    var r := WithStyle(registry, name, background, fontSize);
    if !HasStyle(styles, name) {
      forall i, j | 0 <= i < j < |r| && r[i].name.Some?
        ensures r[i].name != r[j].name
      {
        if j == |styles| {
          assert r[i] == styles[i];
        } else {
          assert r[i] == styles[i] && r[j] == styles[j];
        }
      }
    }
  }

  /** The four styles of `ensure_styles`, created in this order. */
  const AmberName := "AmberHoliday"
  const PinkName := "PinkHoliday"
  const GreenName := "GreenRow"
  const GreyName := "GreyRow"

  function EnsureAll(registry: Option<seq<Style>>): seq<Style> {
    var amber := WithStyle(registry, AmberName, "#ffbf00", Some("6pt"));
    var pink := WithStyle(Some(amber), PinkName, "#ffb6c1", Some("6pt"));
    var green := WithStyle(Some(pink), GreenName, "#ccffcc", None);
    WithStyle(Some(green), GreyName, "#808080", None)
  }

  /** After `ensure_styles` all four names are registered, the old entries are kept, and at most four are added. */
  lemma EnsureAllSpec(registry: Option<seq<Style>>)
    ensures var r := EnsureAll(registry);
            HasStyle(r, AmberName) && HasStyle(r, PinkName) && HasStyle(r, GreenName) && HasStyle(r, GreyName)
            && registry.GetOr([]) <= r
            && |r| <= |registry.GetOr([])| + 4
  {
    var s0 := registry.GetOr([]);
    var amber := WithStyle(registry, AmberName, "#ffbf00", Some("6pt"));
    var pink := WithStyle(Some(amber), PinkName, "#ffb6c1", Some("6pt"));
    var green := WithStyle(Some(pink), GreenName, "#ccffcc", None);
    var r := WithStyle(Some(green), GreyName, "#808080", None);
    WithStyleExtends(registry, AmberName, "#ffbf00", Some("6pt"));
    WithStyleExtends(Some(amber), PinkName, "#ffb6c1", Some("6pt"));
    WithStyleExtends(Some(pink), GreenName, "#ccffcc", None);
    WithStyleExtends(Some(green), GreyName, "#808080", None);
    KeepsNames(amber, r);
    KeepsNames(pink, r);
    KeepsNames(green, r);
  }

  /** A second `ensure_styles` finds every name and changes nothing. */
  lemma EnsureAllIdempotent(registry: Option<seq<Style>>)
    ensures EnsureAll(Some(EnsureAll(registry))) == EnsureAll(registry)
  {
    var r := EnsureAll(registry);
    EnsureAllSpec(registry);
    assert WithStyle(Some(r), AmberName, "#ffbf00", Some("6pt")) == r;
    assert WithStyle(Some(r), PinkName, "#ffb6c1", Some("6pt")) == r;
    assert WithStyle(Some(r), GreenName, "#ccffcc", None) == r;
  }

  /** A name present in a prefix stays present. */
  lemma KeepsNames(a: seq<Style>, b: seq<Style>)
    requires a <= b
    ensures forall name :: HasStyle(a, name) ==> HasStyle(b, name)
  {
    forall name | HasStyle(a, name) ensures HasStyle(b, name) {
      var i :| 0 <= i < |a| && a[i].name == Some(name);
      assert b[i] == a[i];
    }
  }
}
