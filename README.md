# BH_Scrubber core in Dafny

BH_Scrubber builds a bank-holiday spreadsheet. It scrapes country holiday
pages from officeholidays.com and writes each holiday into an OpenDocument
spreadsheet (ODS), in a calendar of one column per day. This project
models the logic of that tool and proves properties of it:

- **Row model** (`table.dfy`). A spreadsheet row is a sequence of
  `table:table-cell` runs. Each run covers `number-columns-repeated`
  logical columns, or one column when the attribute is missing.
  - `get_cell_node` measures the row and, when the row is too short,
    appends one blank run that reaches the target column.
  - It then replaces a run of several columns by a before-run, a single
    target cell and an after-run.
  - The proofs show that this keeps the row's width and every column's
    attributes. Columns outside the split run are untouched.
- **Cell operations** (`cells.dfy`):
  - the text `expand_row` reports;
  - the country name `get_countries` reads, where the link text wins;
  - the paragraph rewrite done by `update_cell_text`;
  - the exclude/force rule of `apply_row_style`.
- **Row-level loops** (`sheet.dfy`). These are the loops of
  `get_cell_node`, `apply_row_style`, `get_countries` and
  `generate_calendar_headers`, written as methods over values and proved
  against specification functions. Beside them sit the lemmas that the
  day map is a bijection onto the new header columns and that each header
  column shows its day's label.
- **The handler** (`ods.dfy`). `ODSHandler` is a class that updates its
  rows, its automatic-styles registry, its day map and its four style names
  in place. Each method is proved to leave exactly the state the
  value-level definitions describe.
- **Style registry** (`styles.dfy`). `_create_style` is a lookup-or-append,
  and `ensure_styles` creates four styles. Both are idempotent and keep
  style names unique.
- **Holiday page parser** (`holiday_parser.dfy`). `OfficeHolidaysParser` is
  an event-driven state machine over start-tag, end-tag and text events. It
  is written as pure step functions, and a class mirrors it whose handlers
  update fields in place.
- **Scraper URL logic** (`scraper.dfy`). This covers the base-URL cleaning,
  the per-year URLs, the de-duplication and the concatenation of parsed
  pages in `fetch_holidays`. The network is a parameter.
- **Helpers**:
  - `text.dfy`: Python string built-ins — `lower`, `strip`, `replace`,
    `in` and `str(int)`;
  - `dates.dfy`: `is_leap`, the calendar length and `strptime("%Y-%m-%d")`;
  - `slug.dfy`: `slugify` and the country URL of `populate_urls.py`.

Dates inside the calendar are day numbers (ints). The `'%a %d/%m/%y'`
header label is the parameter `dayLabel: int -> string`.

Some behaviours of the code that the model keeps as written:

- `get_cell_node` copies only the attributes of a split run into the
  replacement cells. Its `text:p` children go into none of them.
- `</tr>` does not reset the per-row fields; only `<tr>` inside the table
  does. A second `</tr>` with nothing between the two emits the same
  record again (`HolidayParser.RowEndRepeatsRecord`).
- `<tr>` does not clear the parser's name buffer.
- A valueless `class` attribute (`<table class>`, or `<a class>` inside a
  row) makes `handle_starttag` raise. The exception leaves `feed`, and
  `fetch_holidays` skips the whole page
  (`HolidayParser.ValuelessTableClassDropsPage`).

## Model

| member | source | states |
|---|---|---|
| Text.LowerChar | bh_Scrubber.py:93 | the lower-cased character is never an ASCII capital, and a non-capital is unchanged |
| Text.LowerAppend | populate_urls.py:7 | lower-casing distributes over concatenation |
| Text.LowerHasNoUpper | populate_urls.py:7 | a lower-cased string holds no ASCII capital |
| Text.StripStartSpec | populate_urls.py:7 | `lstrip` keeps a suffix, drops only whitespace, and what it keeps does not start with whitespace |
| Text.StripEndSpec | populate_urls.py:7 | `rstrip` keeps a prefix, drops only whitespace, and what it keeps does not end with whitespace |
| Text.StripIsMaximalSlice | bh_Scrubber.py:98 | `strip()` is a slice of the input with whitespace only outside it and none at either of its ends |
| Text.StripTrimmed | bh_Scrubber.py:86 | a string with no whitespace at either end is its own `strip()` |
| Text.MatchesAtIffSlice | bh_Scrubber.py:95 | the character-wise match at a position agrees with slice equality |
| Text.ContainsFromIffOccurs | bh_Scrubber.py:95 | the left-to-right search from `i` succeeds iff the substring occurs at some position `>= i` |
| Text.ContainsIffOccurs | bh_Scrubber.py:95 | Python's `sub in s` holds iff `sub` occurs at some position of `s` |
| Text.ReplaceCharMembership | populate_urls.py:8-10 | a character is in `s.replace(c, r)` iff it survived from `s` (and is not `c`) or came in with `r` while `c` was in `s` |
| Text.ReplaceCharAppend | populate_urls.py:8-10 | replacing a character distributes over concatenation |
| Text.ReplaceCharAbsent | populate_urls.py:8-10 | replacing a character that does not occur changes nothing |
| Text.ReplaceCharKeepsLowerCase | populate_urls.py:8-10 | replacing with lower-case text keeps a string free of capitals |
| Text.DigitChar | bh_Scrubber.py:126 | a digit prints as a character `'0'..'9'` |
| Text.NatToString | bh_Scrubber.py:126 | `str(n)` of a natural is a non-empty string of digits |
| Text.IntToString | bh_Scrubber.py:126 | `str(n)` is non-empty, starts with `-` iff `n` is negative, and is digits after the first character |
| Text.NatToStringRoundTrip | bh_Scrubber.py:126 | reading back the digits `str(n)` wrote gives `n` |
| Text.NatToStringInjective | bh_Scrubber.py:126 | different naturals print differently |
| Text.IntToStringInjective | bh_Scrubber.py:126 | different integers print differently |
| Text.NatToStringFourDigits | bh_Scrubber.py:120 | a year from 1000 to 9999 prints as exactly four digits |
| Dates.DaysInMonth | bh_Scrubber.py:91 | a month has 28 to 31 days, and February has 29 exactly in a leap year |
| Dates.CalendarDuration | bh_Scrubber.py:450 | the calendar spans 365 or 366 days |
| Dates.CalendarDurationIsYearLength | bh_Scrubber.py:445-450 | the calendar length is the total of the twelve month lengths of the year |
| Dates.LeapCycle | bh_Scrubber.py:447-448 | the leap rule repeats every 400 years |
| Dates.DigitValue | bh_Scrubber.py:91 | a digit's value is below 10 |
| Dates.MonthField | bh_Scrubber.py:91 | a parsed month lies in 1..12, uses one or two characters and is followed by `-` |
| Dates.DayField | bh_Scrubber.py:91 | a parsed day lies in 1..31 |
| Dates.ParseIsoDate | bh_Scrubber.py:91 | `strptime(s, "%Y-%m-%d")` yields only valid calendar dates (None where Python raises `ValueError`) |
| Dates.Pad2 | bh_Scrubber.py:91 | two digits whose value is `n` |
| Dates.Pad4 | bh_Scrubber.py:91 | four digits whose value is `n` |
| Dates.ParseFormatRoundTrip | bh_Scrubber.py:91 | every valid date written as `YYYY-MM-DD` parses back to itself |
| Dates.ParseIsoDateAccepts | bh_Scrubber.py:91 | unpadded and space-padded fields and 29 February of a leap year are accepted, with the right date |
| Dates.ParseIsoDateRejects | bh_Scrubber.py:91 | 29 February of a common year, month 13, year 0 and a three-digit day are rejected |
| Slug.SlugHasNoSeparators | populate_urls.py:8-10 | a slug holds no space, no apostrophe and no `&` |
| Slug.SlugIsLowerCase | populate_urls.py:7-10 | a slug holds no ASCII capital |
| Slug.ReplaceAround | populate_urls.py:8-9 | a replacement rewrites only the middle of `x + mid + y` when `x` and `y` lack the character |
| Slug.SlugOfAmpersandPair | populate_urls.py:8-10 | the replacements turn `x + " & " + y` into `x + "-and-" + y` for plain words |
| Slug.SlugifyAmpersandName | populate_urls.py:6-10 | `slugify(x + " & " + y)` is `lower(x) + "-and-" + lower(y)` for plain words |
| Slug.SlugifyExample | populate_urls.py:6 | `slugify("Bosnia & Herzegovina") == "bosnia-and-herzegovina"` |
| Slug.BosniaLowered | populate_urls.py:6 | the lower-cased words of the example |
| Slug.CountryUrl | populate_urls.py:36-40 | the URL starts with the officeholidays.com countries prefix and ends with `/2026` |
| Slug.CountryUrlSlug | populate_urls.py:36-40 | for any country but the Congo, the part between prefix and year is `slugify(name)` |
| HolidayParser.Attr | bh_Scrubber.py:51 | `dict(attrs).get(key)` finds a value iff some pair has the key, and the value is that of the last pair with the key (the last pair wins); a valueless attribute's value is None |
| HolidayParser.RowRecord | bh_Scrubber.py:89-98 | a row end appends at most one record; it appends one iff the date is truthy, the name buffer is non-empty and the date parses; the record is (parsed date, stripped name, not regional) |
| HolidayParser.StepHolidays | bh_Scrubber.py:80-102 | a handler that does not raise adds records only at `</tr>`, and then exactly the pending row's record |
| HolidayParser.RunExtendsHolidays | bh_Scrubber.py:98 | in a run that finishes, records are only appended: the output so far stays a prefix of the output |
| HolidayParser.RunAppend | bh_Scrubber.py:143 | feeding two stretches of events is feeding the first and, unless it raised, then the second |
| HolidayParser.RaiseAborts | bh_Scrubber.py:52-54 | a start tag whose handler raises, after any prefix of events, aborts the whole run whatever follows |
| HolidayParser.ClassValuesNeverAbort | bh_Scrubber.py:52-76 | only a valueless class raises: when every start tag's class has a value, the run finishes |
| HolidayParser.ValuelessTableClassDropsPage | bh_Scrubber.py:54 | a `<table>` with a valueless class anywhere on a page leaves that page with no holidays |
| HolidayParser.RunWithoutRowEnd | bh_Scrubber.py:87-100 | without a `</tr>` event no record is emitted |
| HolidayParser.NationalClassification | bh_Scrubber.py:93-96 | a record is national iff its lower-cased type mentions neither "regional" nor "local" |
| HolidayParser.RowEndRepeatsRecord | bh_Scrubber.py:87-100 | `</tr>` resets nothing and never raises, so two in a row emit the pending record twice |
| HolidayParser.RowStartKeepsName | bh_Scrubber.py:57-63 | `<tr>` in the table clears date and type and the cell counter and starts a row, but keeps the name buffer |
| HolidayParser.RowStartOutsideTable | bh_Scrubber.py:57 | outside the target table `<tr>` changes nothing |
| HolidayParser.BlankNameStillEmits | bh_Scrubber.py:89 | the emptiness test is on the untrimmed name: a name of one space still yields a record, named "" |
| HolidayParser.MalformedRowsDropped | bh_Scrubber.py:89-100 | a missing date, an empty name or an unparsable date adds nothing |
| HolidayParser.OfficeHolidaysParser.constructor | bh_Scrubber.py:34-48 | the fields start as the initial state |
| HolidayParser.OfficeHolidaysParser.HandleStartTag | bh_Scrubber.py:50-78 | it fails exactly when a valueless class meets a `<table>` or an `<a>` inside a row, leaving the fields unchanged; otherwise the fields become the start-tag step of the old state |
| HolidayParser.OfficeHolidaysParser.HandleEndTag | bh_Scrubber.py:80-102 | the fields become the end-tag step of the old state |
| HolidayParser.OfficeHolidaysParser.HandleData | bh_Scrubber.py:104-108 | the fields become the text step of the old state |
| HolidayParser.OfficeHolidaysParser.Feed | bh_Scrubber.py:143 | feeding events succeeds iff the run of all steps finishes, and then leaves the state it produces |
| HolidayParser.ParsePage | bh_Scrubber.py:142-144 | a fresh parser fed a page yields that page's holidays, or none when a handler raised |
| Scraper.RStripSlash | bh_Scrubber.py:119 | `rstrip('/')` keeps a prefix, drops only slashes and leaves no trailing slash |
| Scraper.LastSlash | bh_Scrubber.py:121 | the last slash's position, None iff there is no slash |
| Scraper.CleanBaseUrl | bh_Scrubber.py:119-121 | after stripping slashes, a final `/dddd` (or `/dddd` before a final newline, where `$` matches) is cut, and nothing else is |
| Scraper.YearUrlsIndex | bh_Scrubber.py:125-126 | the k-th URL is the cleaned URL with the k-th year appended |
| Scraper.DedupSpec | bh_Scrubber.py:123-128 | the seen-set filter keeps exactly the input's URLs, each once |
| Scraper.DedupSnoc | bh_Scrubber.py:127-128 | a URL already seen is skipped; a new one is appended |
| Scraper.GatherSnoc | bh_Scrubber.py:144 | each fetched page's holidays are appended after the earlier ones |
| Scraper.YearUrlInjective | bh_Scrubber.py:126 | two years give the same URL iff they are equal |
| Scraper.YearUrlsSnoc | bh_Scrubber.py:125-126 | one more year appends its URL |
| Scraper.GatherDedupSnoc | bh_Scrubber.py:125-144 | a URL already requested adds nothing; a new one adds its page |
| Scraper.FetchPage | bh_Scrubber.py:131-152 | the page's holidays from a fresh parser, or nothing when fetching or parsing fails |
| Scraper.FetchHolidays | bh_Scrubber.py:112-154 | the loop returns the concatenated holidays of the distinct year URLs, in order |
| Scraper.CleanBaseUrlDropsYear | bh_Scrubber.py:116-121 | a URL ending in a four-digit year, with any trailing slashes, is cleaned back to its stem |
| Scraper.CleanBaseUrlKeepsStem | bh_Scrubber.py:119-121 | a URL without a trailing year loses only its trailing slashes |
| Scraper.RequestedUrlsOncePerYear | bh_Scrubber.py:123-128 | no URL is requested twice, and a year's URL is requested iff the year was asked for |
| Scraper.DistinctYearsAllFetched | bh_Scrubber.py:125-128 | distinct years are all requested, none skipped as seen |
| Scraper.RepeatedYearFetchedOnce | bh_Scrubber.py:125-128 | asking for a year twice gives the same holidays as asking once |
| Table.WidthSnoc | bh_Scrubber.py:288-292 | one more run adds its count to the width |
| Table.WidthAppend | bh_Scrubber.py:288-292 | the width of two parts is the sum of their widths |
| Table.WidthPrefixMono | bh_Scrubber.py:312-317 | the first column of a later run is past the end of an earlier one |
| Table.CoversUnique | bh_Scrubber.py:317 | at most one run covers a column |
| Table.RunIndex | bh_Scrubber.py:312-317 | the run found covers the column |
| Table.ColumnsLength | bh_Scrubber.py:243-244 | the expanded row has one entry per logical column |
| Table.ColumnsAppend | bh_Scrubber.py:238-244 | expanding distributes over concatenation of runs |
| Table.ColumnsCover | bh_Scrubber.py:313-317 | column `col` of the expanded row is the run that covers it |
| Table.ColumnsSingle | bh_Scrubber.py:243-244 | one run expands to `count` copies of itself |
| Table.ExtendedWidth | bh_Scrubber.py:295-305 | the auto-extend step makes the row exactly `col + 1` wide when it was shorter, and otherwise keeps it |
| Table.SplitRunShape | bh_Scrubber.py:318-339 | the replacement cells cover `pre + 1 + post == count` columns; all carry the run's attributes and no children; the target is a single column at the offset with no repeat attribute; the others carry a positive repeat |
| Table.SplitRunColumns | bh_Scrubber.py:324-339 | every column of the replacement keeps the run's attributes and has no children |
| Table.SplitInRow | bh_Scrubber.py:341-343 | the replacement in the row keeps the width and places the target at the targeted column |
| Table.FoundColumn | bh_Scrubber.py:313-346 | the cell found is a single column covering `col`, and the width is unchanged |
| Table.LocateFindsColumn | bh_Scrubber.py:279-348 | None with the row unchanged iff `col` is past the end and extending is off; otherwise the cell found is a single column covering `col` and the row is exactly wide enough |
| Table.LocateExtends | bh_Scrubber.py:295-308 | past the end, the row becomes the old row, then a blank run of the gap (if any), then the single blank target |
| Table.FoundInBlank | bh_Scrubber.py:302-344 | locating the last column of an appended blank run splits it at its end |
| Table.FoundLastRun | bh_Scrubber.py:313-344 | locating a column of the last run splits that run (or returns it when it is a single column) |
| Table.FoundAt | bh_Scrubber.py:313-346 | locating in terms of the run that covers the column |
| Table.BlankSplit | bh_Scrubber.py:302-339 | a blank run split at its last column becomes a blank run of the rest and a single blank cell |
| Table.LocateKeepsColumns | bh_Scrubber.py:279-348 | inside the row: the width and every column's attributes are kept; columns outside the run are untouched; the split run's columns lose their children; a single-column run leaves the row as it was |
| Table.ColumnsSplice | bh_Scrubber.py:341-343 | replacing one run by other cells replaces exactly its expanded columns |
| Table.FoundKeepsColumns | bh_Scrubber.py:317-346 | the same conservation facts for the search-and-split step |
| Table.SplitKeepsColumns | bh_Scrubber.py:318-343 | splitting run `k` changes only its columns, which keep its attributes and lose their children |
| Table.SpliceColumns | bh_Scrubber.py:341-343 | cells with the run's attributes spliced in change only that run's columns |
| Table.LocateIdempotent | bh_Scrubber.py:279-348 | locating the same column again finds the same cell and changes nothing |
| Cells.FirstParaSpec | bh_Scrubber.py:241 | `find('text:p')` fails iff no child is a paragraph, and otherwise returns the earliest |
| Cells.CountryText | bh_Scrubber.py:265-271 | the country name read from a cell is truthy when present |
| Cells.CountryTextPrefersLink | bh_Scrubber.py:267-271 | a truthy link text wins; otherwise the paragraph's own text is used, if truthy |
| Cells.NonParasSpec | bh_Scrubber.py:354-356 | the clearing loop keeps exactly the non-paragraph children |
| Cells.NonParasAppend | bh_Scrubber.py:354-356 | the clearing loop distributes over concatenation |
| Cells.NonParasFilter | bh_Scrubber.py:354-356 | the clearing loop keeps a single child iff it is not a paragraph, and keeps each non-paragraph child as often as it occurs |
| Cells.RewrittenReadsBack | bh_Scrubber.py:350-365 | reading the cell back gives the text written; the only paragraph left holds it (none for empty text); other children and the repeat count stay; value type "string" only for non-empty text; the style is set when truthy and otherwise left as it was; other attributes stay |
| Cells.RewrittenChildren | bh_Scrubber.py:353-361 | the children part: the cell reads back the text, its only paragraph holds it, other children and the repeat count stay |
| Cells.RewrittenAttrs | bh_Scrubber.py:358-365 | the attribute part: value type "string" for non-empty text, the style when truthy, every other attribute (and an untruthy style) unchanged |
| Cells.RewriteCell | bh_Scrubber.py:352-365 | the clearing loop plus the appends and the attribute updates produce the rewritten cell |
| Cells.NonParasOfPlain | bh_Scrubber.py:354-356 | children without paragraphs are kept whole |
| Cells.FirstParaAfterPlain | bh_Scrubber.py:358-361 | the appended paragraph is the first one when the others were cleared |
| Cells.Restyle | bh_Scrubber.py:404 | setting `style-name` gives the new style and keeps every other attribute, the repeat count and the children |
| Cells.StyledOutcome | bh_Scrubber.py:400-404 | after one step the cell has the new style, or (only when not forced) keeps a style from the exclude list; unless forced with an empty exclude list or a style outside it, it takes the new style |
| Cells.ExpandRow | bh_Scrubber.py:234-245 | `expand_row` returns one value per logical column, the text of the run covering it |
| Cells.ColumnsStep | bh_Scrubber.py:238-244 | one more run appends its texts, repeated |
| Styles.WithStyleExtends | bh_Scrubber.py:368-389 | after `_create_style` the name is present and old entries are kept in order; the registry is unchanged iff the name was already there, and otherwise grows by exactly the new entry |
| Styles.WithStyleIdempotent | bh_Scrubber.py:373-375 | creating a style again, with any colour or size, changes nothing |
| Styles.WithStyleKeepsUnique | bh_Scrubber.py:373-389 | a registry with unique names keeps them unique |
| Styles.EnsureAllSpec | bh_Scrubber.py:391-395 | after `ensure_styles` all four names are present, old entries are kept, and at most four are added |
| Styles.EnsureAllIdempotent | bh_Scrubber.py:391-395 | a second `ensure_styles` changes nothing |
| Styles.KeepsNames | bh_Scrubber.py:373-375 | a name present in a prefix stays present |
| Sheet.MeasureWidth | bh_Scrubber.py:287-292 | the width loop computes the row's logical width |
| Sheet.FindRun | bh_Scrubber.py:312-347 | the search loop finds a run iff `col` is inside the row; it finds the covering run and its first column |
| Sheet.LocateCell | bh_Scrubber.py:279-348 | the loops, the append and the split leave the row and index `Locate` describes |
| Sheet.CountriesSpec | bh_Scrubber.py:247-277 | a pair is listed iff it is a non-header row whose column D names that country |
| Sheet.CountriesOrdered | bh_Scrubber.py:251-276 | listed rows exist and appear in increasing order |
| Sheet.CountryFromLink | bh_Scrubber.py:264-276 | a row whose country cell holds a truthy link is listed under the link's text |
| Sheet.ColumnsUpdateSingle | bh_Scrubber.py:350-365 | rewriting a single-column run changes exactly its column of the expanded row |
| Sheet.SingleRunColumn | bh_Scrubber.py:317-346 | a single-column run is what the expanded row shows at its column |
| Sheet.LocatedColumn | bh_Scrubber.py:279-348 | with extending on, the cell found is the expanded row's column `col`, the width becomes `max(width, col + 1)`, and past the end the cell is blank |
| Sheet.LocateKeepsAttrs | bh_Scrubber.py:295-308 | every existing column keeps its attributes, and its whole cell when the row was extended |
| Sheet.AppendKeepsColumns | bh_Scrubber.py:305 | appending cells leaves the existing columns alone |
| Sheet.WriteTextEffect | bh_Scrubber.py:350-365 | after `update_cell_text`, `expand_row` reports the text written at that column; the width becomes `max(width, col + 1)`; other existing columns keep their attributes |
| Sheet.StyleColumn | bh_Scrubber.py:399-404 | one column of `apply_row_style`: locate, then restyle unless skipped |
| Sheet.StyleStepAt | bh_Scrubber.py:399-404 | restyling the located cell is one column step |
| Sheet.StyleStepEffect | bh_Scrubber.py:399-404 | one step styles its column (or keeps an excluded style when not forced), grows the row just enough and keeps every other column's attributes |
| Sheet.ForEachColumn | bh_Scrubber.py:398 | the loop applies the step to the columns from `start`, in order |
| Sheet.StyleRange | bh_Scrubber.py:397-404 | the loop of `apply_row_style` over the `n` columns yields `StyleColumns` |
| Sheet.EachColumnSnoc | bh_Scrubber.py:398 | one more iteration extends the loop's result by that step |
| Sheet.StyledRangeStep | bh_Scrubber.py:398-404 | styling one more column extends the styled range |
| Sheet.EachColumnStyles | bh_Scrubber.py:398-404 | any step that styles its column as `apply_row_style` does styles the whole range |
| Sheet.StyleColumnsEffect | bh_Scrubber.py:397-404 | every column in `[start, end]` gets the style, except one that existed with an excluded style when not forced; other existing columns keep their attributes; the row grows just enough |
| Sheet.ForcedStyleCoversRange | bh_Scrubber.py:402 | with `force`, every column of the range has the style |
| Sheet.DayColumnsSpec | bh_Scrubber.py:212-228 | the map gains exactly the days `start..start+n-1`, mapped to `w + (d - start)`; other entries stay |
| Sheet.HeaderColumns | bh_Scrubber.py:203-223 | the header row keeps its existing columns and gains one width-1 column per day, in order |
| Sheet.HeaderWidth | bh_Scrubber.py:217-223 | header cells are single columns |
| Sheet.DayColumnsBijection | bh_Scrubber.py:203-228 | the days of the range map one to one onto the columns `w..w+n-1`: each day lands in that block, `DayOfColumn` gives each column's day back, and no two days share a column |
| Sheet.CalendarLabels | bh_Scrubber.py:212-228 | each recorded day's column of the new header row shows that day's label |
| Sheet.LabelsAt | bh_Scrubber.py:212-228 | the same over any columns and map laid out as the calendar lays them out |
| Ods.OdsHandler.constructor | bh_Scrubber.py:157-176 | the handler holds the parsed rows and styles, an empty day map and no style names |
| Ods.OdsHandler.GetCellNode | bh_Scrubber.py:279-348 | a missing row gives None and no change; otherwise the row becomes the located row and the index is returned; nothing else changes |
| Ods.OdsHandler.UpdateCellText | bh_Scrubber.py:350-365 | the row becomes `WriteText` of the old row; a missing row is left alone; nothing else changes |
| Ods.OdsHandler.ApplyRowStyle | bh_Scrubber.py:397-404 | the row becomes `StyleColumns` over `[start, end]` (no columns when `end < start`); a missing row is left alone; nothing else changes |
| Ods.OdsHandler.CreateStyle | bh_Scrubber.py:368-389 | returns the name, and the registry becomes `WithStyle` of the old one |
| Ods.OdsHandler.EnsureStyles | bh_Scrubber.py:391-395 | the registry gains the four styles in order, and the four names are recorded |
| Ods.OdsHandler.GenerateCalendarHeaders | bh_Scrubber.py:187-232 | no change without rows; otherwise the header row gains one cell per day and the day map records each day at `w + i`, `w` being the old width; a non-positive duration adds nothing |
| Ods.OdsHandler.GetCountries | bh_Scrubber.py:247-277 | the loop returns `Countries` of the rows |

## Left out

- XML and zip I/O. `load`, `save`, the temporary file, `shutil.move` and
  namespace registration are not modelled. The document is given to the
  handler's constructor as already-parsed rows and styles.
- Tree layout. A row is modelled as its `table:table-cell` children only.
  Other row children are not modelled, such as `table:covered-table-cell`.
  `row.insert(i, ...)` indexes all children, so with such children
  present it could land at a different position than in the model.
- Negative indices. Row and column indices are naturals. Python's
  negative-index wrap-around in `rows[row_idx]` is not modelled.
- Malformed repeat values. A non-numeric `number-columns-repeated`,
  which makes `int()` raise, is not modelled. A negative one is not
  modelled either, since the repeat count is a natural. A repeat of `"0"`
  is modelled: such a run covers no column, as in the source.
- The network. HTTP requests, the User-Agent, the timeout, the
  `HTTPError` branch that compares with `datetime.now()`, and
  `time.sleep`. Fetching is the parameter `fetch`, and every failure is
  `None`.
- HTML tokenisation inside `HTMLParser.feed`. The parser reads an
  abstract list of events, in which a valueless attribute carries None.
  Exceptions other than the handlers' own (a decoding error, say) are
  part of the fetch parameter.
- The interactive driver (`__main__` of `bh_Scrubber.py`), `main` of
  `populate_urls.py` beyond the URL it builds, `print` output, and
  `batch_update.py` and `otherfiles/`.
- `strftime`. Day labels are the parameter `dayLabel`, and calendar days
  are day numbers rather than `datetime` objects.
- `temp_name`, which the parser sets but never reads.
- Unicode. `Text.LowerChar` lower-cases ASCII letters only; Python's
  `str.lower` also folds other scripts. `Dates.ParseIsoDate` and
  `Scraper.EndsWithYearSegment` take ASCII digits only, where Python's
  `\d` and `int()` accept other decimal digits too.
- Slug.CountryUrlSlug: covers every name but the Congo. The override's
  slug is not proved equal to `slugify` of the name. Unfolding a
  32-character literal through lower-casing and replacement is beyond the
  verifier's resource limit.
- Sheet.StyleRange and Ods.OdsHandler.ApplyRowStyle: model each column
  as one value-level step (`StyleStep`: locate, then restyle), applied by
  a generic loop. The handler writes the row back once, after the loop,
  rather than mutating the cell found by each `get_cell_node` call.
  `Sheet.StyleColumn` is that single step as a method.
