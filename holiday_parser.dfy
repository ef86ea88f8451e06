/**
 * `OfficeHolidaysParser`: an event-driven scan over the start-tag, end-tag
 * and text events of an officeholidays.com country page. It recognises the
 * table classed `country-table`, counts the cells of each row, records the
 * `datetime` of a `<time>` element, the text of the `country-listing` link
 * (the holiday name) and the text of the fourth cell (the holiday type), and
 * emits one record per row end whose date parses. A start tag whose
 * `class` attribute has no value makes the source's substring test raise,
 * which ends the page's parse.
 *
 * The step functions below are the specification; the class keeps the same
 * state in fields and updates it the way the source's handlers do.
 */
module HolidayParser {
  import opened Wrappers
  import opened Text
  import opened Dates

  /**
   * What `HTMLParser.feed` delivers to the three handlers. An attribute
   * written without a value (`<table class>`) arrives with the value None.
   */
  datatype Event =
    | StartTag(tag: string, attrs: seq<(string, Option<string>)>)
    | EndTag(tag: string)
    | Data(text: string)

  /** One emitted row: the parsed date, the trimmed name, national or not. */
  datatype Holiday = Holiday(date: Date, name: string, isNational: bool)

  /** The 1-based cell position of the holiday-type column. */
  const TypeColumn := 4

  datatype ParserState = ParserState(
    inTable: bool,
    inRow: bool,
    cellIdx: int,
    tempDate: Option<string>,
    tempType: Option<string>,
    recordingName: bool,
    recordingType: bool,
    nameText: string,
    typeText: string,
    holidays: seq<Holiday>)

  function Initial(): ParserState {
    ParserState(false, false, 0, None, None, false, false, "", "", [])
  }

  /**
   * `dict(attrs)` looked up at `key`: None when no pair has the key,
   * otherwise the value of the last pair with that key (itself None for a
   * valueless attribute).
   */
  function Attr(attrs: seq<(string, Option<string>)>, key: string): (r: Option<Option<string>>)
    ensures r.Some? <==> exists i :: 0 <= i < |attrs| && attrs[i].0 == key
    ensures r.Some? ==> exists i :: 0 <= i < |attrs| && attrs[i] == (key, r.value)
                                   && forall j :: i < j < |attrs| ==> attrs[j].0 != key
  {
    if attrs == [] then None
    else if attrs[|attrs| - 1].0 == key then Some(attrs[|attrs| - 1].1)
    else
      var r := Attr(attrs[..|attrs| - 1], key);
      assert forall i :: 0 <= i < |attrs| - 1 ==> attrs[..|attrs| - 1][i] == attrs[i];
      r
  }

  /** `attrs_dict.get('class', '')`: "" when absent, None when valueless. */
  function ClassOf(attrs: seq<(string, Option<string>)>): Option<string> {
    match Attr(attrs, "class")
    case None => Some("")
    case Some(v) => v
  }

  /** `attrs_dict.get('datetime')`: None when absent or valueless. */
  function DateTimeOf(attrs: seq<(string, Option<string>)>): Option<string> {
    match Attr(attrs, "datetime")
    case None => None
    case Some(v) => v
  }

  /**
   * `handle_starttag` raises when it tests a substring against a None class:
   * on a `<table>` anywhere, and on an `<a>` inside a row. No field has
   * changed when it does.
   */
  predicate Raises(s: ParserState, tag: string, attrs: seq<(string, Option<string>)>) {
    ClassOf(attrs).None? && (tag == "table" || (s.inRow && tag == "a"))
  }

  /** The type text names a regional or local holiday (case-insensitive substring test). */
  predicate IsRegional(tempType: Option<string>) {
    var t := Lower(tempType.GetOr(""));
    Contains(t, "regional") || Contains(t, "local")
  }

  /** Python truthiness of the pending date: present and non-empty. */
  predicate HasDate(tempDate: Option<string>) {
    tempDate.Some? && tempDate.value != ""
  }

  /**
   * The record a row end appends, from the pending date, the name buffer
   * and the pending type: nothing, or exactly one holiday.
   */
  function RowRecord(tempDate: Option<string>, nameText: string, tempType: Option<string>): (r: seq<Holiday>)
    ensures |r| <= 1
    ensures |r| == 1 <==> HasDate(tempDate) && nameText != "" && ParseIsoDate(tempDate.value).Some?
    ensures |r| == 1 ==> r[0] == Holiday(ParseIsoDate(tempDate.value).value, Strip(nameText), !IsRegional(tempType))
  {
    if HasDate(tempDate) && nameText != "" then
      match ParseIsoDate(tempDate.value)
      case Some(d) => [Holiday(d, Strip(nameText), !IsRegional(tempType))]
      case None => []
    else []
  }

  /** `RowRecord` of the row the parser is in. */
  function PendingRecord(s: ParserState): seq<Holiday> {
    RowRecord(s.tempDate, s.nameText, s.tempType)
  }

  /**
   * `handle_starttag`: five independent tests, applied in the source's
   * order. When the event does not raise, a None class only meets tests
   * whose tag does not match, so reading it as "" changes nothing.
   */
  function OnStartTag(s: ParserState, tag: string, attrs: seq<(string, Option<string>)>): ParserState {
    var cls := ClassOf(attrs).GetOr("");
    StartLink(StartTime(StartCell(StartRow(StartTable(s, tag, cls), tag), tag), tag, attrs), tag, cls)
  }

  /** A `<table>` whose class contains "country-table" enters the table. */
  function StartTable(s: ParserState, tag: string, cls: string): ParserState {
    if tag == "table" && Contains(cls, "country-table") then s.(inTable := true) else s
  }

  /** `<tr>` inside the table starts a row and resets the per-row fields, but not the name buffer. */
  function StartRow(s: ParserState, tag: string): ParserState {
    if s.inTable && tag == "tr" then
      s.(inRow := true, cellIdx := 0, tempDate := None, tempType := None, typeText := "")
    else s
  }

  /** `<td>` inside a row counts the cell; the fourth starts recording the type. */
  function StartCell(s: ParserState, tag: string): ParserState {
    if s.inRow && tag == "td" then
      (if s.cellIdx + 1 == TypeColumn then s.(cellIdx := s.cellIdx + 1, recordingType := true, typeText := "")
       else s.(cellIdx := s.cellIdx + 1))
    else s
  }

  /** `<time>` inside a row takes its `datetime` attribute, or None. */
  function StartTime(s: ParserState, tag: string, attrs: seq<(string, Option<string>)>): ParserState {
    if s.inRow && tag == "time" then s.(tempDate := DateTimeOf(attrs)) else s
  }

  /** An `<a>` inside a row whose class contains "country-listing" starts recording the name. */
  function StartLink(s: ParserState, tag: string, cls: string): ParserState {
    if s.inRow && tag == "a" && Contains(cls, "country-listing") then s.(recordingName := true, nameText := "")
    else s
  }

  /** `handle_endtag`: four independent tests, applied in the source's order. */
  function OnEndTag(s: ParserState, tag: string): ParserState {
    EndLink(EndRow(EndCell(EndTable(s, tag), tag), tag), tag)
  }

  /** Any `</table>` leaves the table, whichever table it closes. */
  function EndTable(s: ParserState, tag: string): ParserState {
    if tag == "table" then s.(inTable := false) else s
  }

  /** `</td>` ends the type cell and keeps its trimmed text. */
  function EndCell(s: ParserState, tag: string): ParserState {
    if tag == "td" && s.recordingType then s.(recordingType := false, tempType := Some(Strip(s.typeText))) else s
  }

  /** `</tr>` leaves the row and appends its record, if any. */
  function EndRow(s: ParserState, tag: string): ParserState {
    if tag == "tr" then s.(inRow := false, holidays := s.holidays + PendingRecord(s)) else s
  }

  /** `</a>` stops recording the name. */
  function EndLink(s: ParserState, tag: string): ParserState {
    if tag == "a" then s.(recordingName := false) else s
  }

  /** `handle_data`. */
  function OnData(s: ParserState, text: string): ParserState {
    var s1 := if s.recordingName then s.(nameText := s.nameText + text) else s;
    if s1.recordingType then s1.(typeText := s1.typeText + text) else s1
  }

  /** One handler call: the new state, or None when the handler raises. */
  function Step(s: ParserState, e: Event): Option<ParserState> {
    match e
    case StartTag(tag, attrs) => if Raises(s, tag, attrs) then None else Some(OnStartTag(s, tag, attrs))
    case EndTag(tag) => Some(OnEndTag(s, tag))
    case Data(text) => Some(OnData(s, text))
  }

  /** `feed`: every event in order; the first handler that raises ends the run with None. */
  function Run(s: ParserState, events: seq<Event>): Option<ParserState>
    decreases |events|
  {
    if events == [] then Some(s)
    else match Step(s, events[0])
      case None => None
      case Some(s1) => Run(s1, events[1..])
  }

  /** Only a row end can add records, and it adds exactly `RowRecord` of the state it sees. */
  lemma StepHolidays(s: ParserState, e: Event)
    requires Step(s, e).Some?
    ensures Step(s, e).value.holidays == s.holidays + (if e == EndTag("tr") then PendingRecord(s) else [])
  {
    match e
    case StartTag(tag, attrs) =>
      var cls := ClassOf(attrs).GetOr("");
      var s1 := StartRow(StartTable(s, tag, cls), tag);
      assert s1.holidays == s.holidays;
      assert StartLink(StartTime(StartCell(s1, tag), tag, attrs), tag, cls).holidays == s.holidays;
    case EndTag(tag) =>
      var s2 := EndCell(EndTable(s, tag), tag);
      if tag == "tr" {
        assert s2 == s;
      } else {
        assert EndRow(s2, tag) == s2;
      }
    case Data(text) =>
  }

  /** Records are only ever appended: the output so far is a prefix of the final output. */
  lemma {:induction false} RunExtendsHolidays(s: ParserState, events: seq<Event>)
    requires Run(s, events).Some?
    ensures |s.holidays| <= |Run(s, events).value.holidays|
    ensures Run(s, events).value.holidays[..|s.holidays|] == s.holidays
    decreases |events|
  {
    if events != [] {
      var s1 := Step(s, events[0]).value;
      StepHolidays(s, events[0]);
      RunExtendsHolidays(s1, events[1..]);
      assert Run(s, events) == Run(s1, events[1..]);
      assert s1.holidays[..|s.holidays|] == s.holidays;
    }
  }

  /** Running two stretches of events is running the first, then the second from where it stopped. */
  lemma {:induction false} RunAppend(s: ParserState, a: seq<Event>, b: seq<Event>)
    ensures Run(s, a + b) == match Run(s, a) case None => None case Some(t) => Run(t, b)
    decreases |a|
  {
    if a != [] {
      assert (a + b)[0] == a[0] && (a + b)[1..] == a[1..] + b;
      match Step(s, a[0])
      case None =>
      case Some(s1) => RunAppend(s1, a[1..], b);
    } else {
      assert a + b == b;
    }
  }

  /**
   * A handler that raises part-way through a page ends the whole run with
   * None, whatever events follow: nothing parsed before it survives.
   */
  lemma RaiseAborts(s: ParserState, before: seq<Event>, tag: string, attrs: seq<(string, Option<string>)>, after: seq<Event>)
    requires Run(s, before).Some? && Raises(Run(s, before).value, tag, attrs)
    ensures Run(s, before + [StartTag(tag, attrs)] + after) == None
  {
    RunAppend(s, before, [StartTag(tag, attrs)] + after);
    assert before + [StartTag(tag, attrs)] + after == before + ([StartTag(tag, attrs)] + after);
  }

  /** Only a valueless class can raise: a page whose start tags all carry a class value runs to its end. */
  lemma {:induction false} ClassValuesNeverAbort(s: ParserState, events: seq<Event>)
    requires forall e :: e in events && e.StartTag? ==> ClassOf(e.attrs).Some?
    ensures Run(s, events).Some?
    decreases |events|
  {
    if events != [] {
      assert events[0] in events;
      assert forall e :: e in events[1..] ==> e in events;
      ClassValuesNeverAbort(Step(s, events[0]).value, events[1..]);
    }
  }

  /** Without a `</tr>` event, no record is emitted. */
  lemma {:induction false} RunWithoutRowEnd(s: ParserState, events: seq<Event>)
    requires EndTag("tr") !in events
    ensures Run(s, events).Some? ==> Run(s, events).value.holidays == s.holidays
    decreases |events|
  {
    if events != [] && Step(s, events[0]).Some? {
      StepHolidays(s, events[0]);
      assert events[0] != EndTag("tr");
      assert forall e :: e in events[1..] ==> e in events;
      RunWithoutRowEnd(Step(s, events[0]).value, events[1..]);
    }
  }

  /** A record's `isNational` flag is false exactly when the type mentions "regional" or "local". */
  lemma NationalClassification(s: ParserState)
    requires |PendingRecord(s)| == 1
    ensures PendingRecord(s)[0].isNational <==>
            !(Contains(Lower(s.tempType.GetOr("")), "regional") || Contains(Lower(s.tempType.GetOr("")), "local"))
  {
  }

  /**
   * Per-row fields are reset only by `<tr>` inside the table, never by
   * `</tr>`: a second row end with nothing in between emits the same record
   * again.
   */
  lemma RowEndRepeatsRecord(s: ParserState)
    ensures Run(s, [EndTag("tr"), EndTag("tr")]) == Some(OnEndTag(OnEndTag(s, "tr"), "tr"))
    ensures OnEndTag(OnEndTag(s, "tr"), "tr").holidays == s.holidays + PendingRecord(s) + PendingRecord(s)
  {
    var s1 := Step(s, EndTag("tr")).value;
    assert PendingRecord(s1) == PendingRecord(s);
    assert [EndTag("tr"), EndTag("tr")][1..] == [EndTag("tr")];
  }

  /**
   * `<tr>` does not clear the name buffer: a row with a date but no
   * country-listing link is emitted under the previous row's name.
   */
  lemma RowStartKeepsName(s: ParserState, attrs: seq<(string, Option<string>)>)
    requires s.inTable
    ensures OnStartTag(s, "tr", attrs).nameText == s.nameText
    ensures OnStartTag(s, "tr", attrs).tempDate == None && OnStartTag(s, "tr", attrs).tempType == None
    ensures OnStartTag(s, "tr", attrs).cellIdx == 0 && OnStartTag(s, "tr", attrs).inRow
  {
  }

  /** Outside the target table a `<tr>` resets nothing. */
  lemma RowStartOutsideTable(s: ParserState, attrs: seq<(string, Option<string>)>)
    requires !s.inTable
    ensures OnStartTag(s, "tr", attrs) == s
  {
  }

  /** The emptiness test is on the untrimmed name: a blank name still yields a record, named "". */
  lemma BlankNameStillEmits(s: ParserState)
    requires HasDate(s.tempDate) && ParseIsoDate(s.tempDate.value).Some?
    requires s.nameText == " "
    ensures |PendingRecord(s)| == 1 && PendingRecord(s)[0].name == ""
  {
    assert StripStart(" ") == "";
  }

  /**
   * Missing date, missing name or an unparsable date: the row yields no
   * record, and nothing else about the output changes.
   */
  lemma MalformedRowsDropped(s: ParserState)
    requires !HasDate(s.tempDate) || s.nameText == "" || ParseIsoDate(s.tempDate.value).None?
    ensures OnEndTag(s, "tr").holidays == s.holidays
  {
  }

  /**
   * The three handlers as the source writes them: flags, counters, text
   * buffers and the output list are fields updated in place.
   */
  class OfficeHolidaysParser {
    var inTable: bool
    var inRow: bool
    var currentCellIdx: int
    var tempDate: Option<string>
    var tempType: Option<string>
    var recordingName: bool
    var recordingType: bool
    var currentNameText: string
    var currentTypeText: string
    var holidays: seq<Holiday>

    /** The fields as one value, for the specification. */
    function State(): ParserState
      reads this
    {
      ParserState(inTable, inRow, currentCellIdx, tempDate, tempType, recordingName, recordingType,
                  currentNameText, currentTypeText, holidays)
    }

    constructor ()
      ensures State() == Initial()
    {
      inTable, inRow, currentCellIdx := false, false, 0;
      tempDate, tempType := None, None;
      recordingName, recordingType := false, false;
      currentNameText, currentTypeText := "", "";
      holidays := [];
    }

    /** `handle_starttag`; `ok` is false when it raises, and then no field has changed. */
    method HandleStartTag(tag: string, attrs: seq<(string, Option<string>)>) returns (ok: bool)
      modifies this
      ensures ok <==> !Raises(old(State()), tag, attrs)
      ensures State() == if ok then OnStartTag(old(State()), tag, attrs) else old(State())
    {
      var classAttr := ClassOf(attrs);
      if classAttr.None? && (tag == "table" || (inRow && tag == "a")) {
        return false;
      }
      ok := true;
      var className := classAttr.GetOr("");
      if tag == "table" && Contains(className, "country-table") {
        inTable := true;
      }
      if inTable && tag == "tr" {
        inRow := true;
        currentCellIdx := 0;
        tempDate := None;
        tempType := None;
        currentTypeText := "";
      }
      if inRow && tag == "td" {
        currentCellIdx := currentCellIdx + 1;
        if currentCellIdx == TypeColumn {
          recordingType := true;
          currentTypeText := "";
        }
      }
      if inRow && tag == "time" {
        tempDate := DateTimeOf(attrs);
      }
      if inRow && tag == "a" && Contains(className, "country-listing") {
        recordingName := true;
        currentNameText := "";
      }
    }

    method HandleEndTag(tag: string)
      modifies this
      ensures State() == OnEndTag(old(State()), tag)
    {
      if tag == "table" {
        inTable := false;
      }
      if tag == "td" {
        if recordingType {
          recordingType := false;
          tempType := Some(Strip(currentTypeText));
        }
      }
      if tag == "tr" {
        inRow := false;
        if tempDate.Some? && tempDate.value != "" && currentNameText != "" {
          var parsed := ParseIsoDate(tempDate.value);
          if parsed.Some? {
            var isRegional := IsRegional(tempType);
            holidays := holidays + [Holiday(parsed.value, Strip(currentNameText), !isRegional)];
          }
        }
      }
      if tag == "a" {
        recordingName := false;
      }
    }

    method HandleData(data: string)
      modifies this
      ensures State() == OnData(old(State()), data)
    {
      if recordingName {
        currentNameText := currentNameText + data;
      }
      if recordingType {
        currentTypeText := currentTypeText + data;
      }
    }

    /** `feed`: the events in order, each to its handler; `ok` is false when one raised, which stops the feed. */
    method Feed(events: seq<Event>) returns (ok: bool)
      modifies this
      ensures ok <==> Run(old(State()), events).Some?
      ensures ok ==> State() == Run(old(State()), events).value
    {
      var i := 0;
      while i < |events|
        invariant 0 <= i <= |events|
        decreases |events| - i
        invariant Run(State(), events[i..]) == Run(old(State()), events)
      {
        assert events[i..][1..] == events[i + 1..];
        match events[i] {
          case StartTag(tag, attrs) =>
            var handled := HandleStartTag(tag, attrs);
            if !handled {
              return false;
            }
          case EndTag(tag) => HandleEndTag(tag);
          case Data(text) => HandleData(text);
        }
        i := i + 1;
      }
      return true;
    }
  }

  /**
   * The holidays of one page: a fresh parser fed the page's events. When a
   * handler raises, the caller's `except` skips the page: it yields nothing.
   */
  function PageHolidays(events: seq<Event>): seq<Holiday> {
    match Run(Initial(), events)
    case None => []
    case Some(s) => s.holidays
  }

  /** A `<table>` with a valueless class, anywhere on a page, costs the page all its holidays. */
  lemma ValuelessTableClassDropsPage(before: seq<Event>, attrs: seq<(string, Option<string>)>, after: seq<Event>)
    requires ClassOf(attrs).None?
    ensures PageHolidays(before + [StartTag("table", attrs)] + after) == []
  {
    match Run(Initial(), before)
    case None =>
      RunAppend(Initial(), before, [StartTag("table", attrs)] + after);
      assert before + [StartTag("table", attrs)] + after == before + ([StartTag("table", attrs)] + after);
    case Some(t) =>
      RaiseAborts(Initial(), before, "table", attrs, after);
  }

  method ParsePage(events: seq<Event>) returns (holidays: seq<Holiday>)
    ensures holidays == PageHolidays(events)
  {
    var parser := new OfficeHolidaysParser();
    var ok := parser.Feed(events);
    holidays := if ok then parser.holidays else [];
  }
}
