/** The Crossref normaliser: one raw Crossref work record becomes one Paper,
    with a conference Release when the record names an event. */
module Crossref {
  import opened Wrappers
  import opened Model
  import opened Dates

  /** `{"date-parts": [[year, month, day]]}`; each row may hold 0 to 3 or more numbers. */
  datatype DateHolder = DateHolder(dateParts: seq<seq<int>>)

  /** The `event` object: its name and, optionally, its start date. */
  datatype Event = Event(name: string, start: Option<DateHolder>)

  datatype RawAffiliation = RawAffiliation(name: Option<string>)

  datatype RawAuthor = RawAuthor(
    given: Option<string>,
    family: Option<string>,
    affiliation: Option<seq<RawAffiliation>>)

  /** A Crossref work record; every key may be absent. */
  datatype Entry = Entry(
    title: Option<seq<string>>,
    author: Option<seq<RawAuthor>>,
    abstractText: Option<string>,
    url: Option<string>,
    event: Option<Event>,
    publishedPrint: Option<DateHolder>,
    published: Option<DateHolder>,
    publishedOnline: Option<DateHolder>,
    created: Option<DateHolder>)

  /** What `acquire` yields: one Meta, then papers. */
  datatype Item = MetaItem(meta: Meta) | PaperItem(paper: Paper)

  /** The date fields consulted when the event has no start, highest priority first. */
  function DateCandidates(e: Entry): (r: seq<Option<DateHolder>>)
    ensures |r| == 4
  {
    [e.publishedPrint, e.published, e.publishedOnline, e.created]
  }

  /** The holder the release date is read from: the event start when present,
      otherwise the first date field present. */
  function ReleaseDateHolder(e: Entry, evt: Event): Option<DateHolder>
  {
    if evt.start.Some? then evt.start else FirstPresent(DateCandidates(e))
  }

  /** The date-choice loop, which stops at its first hit. */
  method SelectDateHolder(e: Entry, evt: Event) returns (holder: Option<DateHolder>)
    ensures holder == ReleaseDateHolder(e, evt)
    ensures evt.start.Some? ==> holder == evt.start
    ensures evt.start.None? ==> (holder.None? <==> forall i :: 0 <= i < 4 ==> DateCandidates(e)[i].None?)
    ensures evt.start.None? ==> forall k ::
      (0 <= k < 4 && DateCandidates(e)[k].Some? && forall i :: 0 <= i < k ==> DateCandidates(e)[i].None?)
      ==> holder == DateCandidates(e)[k]
  {
    if evt.start.Some? {
      holder := evt.start;
      return;
    }
    var fields := DateCandidates(e);
    holder := None;
    for i := 0 to |fields|
      invariant holder.None?
      invariant FirstPresent(fields) == FirstPresent(fields[i..])
    {
      assert fields[i..][1..] == fields[i + 1..];
      if fields[i].Some? {
        holder := fields[i];
        return;
      }
    }
  }

  /** `holder["date-parts"][0]` resolved to a date; no holder means the date
      variable was never assigned. */
  function DateOf(holder: Option<DateHolder>): (r: Result<DateInfo, Failure>)
    ensures holder.None? ==> r == Err(UnboundDate)
    ensures holder.Some? && holder.value.dateParts == [] ==> r == Err(EmptySequence("date-parts"))
    ensures holder.Some? && holder.value.dateParts != [] ==> r == ResolveParts(holder.value.dateParts[0])
  {
    match holder
    case None => Err(UnboundDate)
    case Some(h) =>
      if h.dateParts == [] then Err(EmptySequence("date-parts")) else ResolveParts(h.dateParts[0])
  }

  /** The conference release built for an event, dated by `info`. */
  function ConferenceRelease(name: string, info: DateInfo): Release
  {
    Release(
      Venue(name, Conference, name, [], [], Some(false), Some(false), None, info.precision, info.date, Some([1])),
      "published",
      None)
  }

  /** The releases of a record whose event, if any, is dated from `holder`. */
  function EventReleases(event: Option<Event>, holder: Option<DateHolder>): (r: Result<seq<Release>, Failure>)
    ensures event.None? ==> r == Ok([])
    ensures event.Some? ==> (r.Ok? <==> DateOf(holder).Ok?)
    ensures event.Some? && r.Ok? ==> (
      && |r.value| == 1
      && r.value[0].venue.name == event.value.name
      && r.value[0].venue.series == event.value.name
      && r.value[0].venue.venueType == Conference
      && r.value[0].venue.quality == Some([1])
      && r.value[0].status == "published"
      && r.value[0].venue.date == DateOf(holder).value.date
      && r.value[0].venue.datePrecision == DateOf(holder).value.precision)
    ensures event.Some? && r.Err? ==> r.error == DateOf(holder).error
  {
    match event
    case None => Ok([])
    case Some(evt) =>
      var info :- DateOf(holder);
      Ok([ConferenceRelease(evt.name, info)])
  }

  /** The display name: given and family joined by a space when both keys are present, else empty. */
  function AuthorName(a: RawAuthor): (r: string)
    ensures a.given.Some? && a.family.Some? ==> r == a.given.value + " " + a.family.value
    ensures a.given.None? || a.family.None? ==> r == ""
  {
    if a.given.Some? && a.family.Some? then a.given.value + " " + a.family.value else ""
  }

  function ConvertAffiliation(aff: RawAffiliation): Result<Institution, Failure>
  {
    match aff.name
    case None => Err(MissingKey("name"))
    case Some(n) => Ok(Institution(n, Unknown, []))
  }

  /** One author of the record; the `affiliation` key is subscripted, so its absence raises. */
  function ConvertAuthor(a: RawAuthor): (r: Result<PaperAuthor, Failure>)
    ensures a.affiliation.None? ==> r == Err(MissingKey("affiliation"))
    ensures r.Ok? ==> r.value.author.name == AuthorName(a)
    ensures r.Ok? <==> a.affiliation.Some? && forall i :: 0 <= i < |a.affiliation.value| ==> a.affiliation.value[i].name.Some?
    ensures r.Ok? ==> (
      && |r.value.affiliations| == |a.affiliation.value|
      && forall i :: 0 <= i < |a.affiliation.value| ==>
           r.value.affiliations[i] == Institution(a.affiliation.value[i].name.value, Unknown, []))
  {
    match a.affiliation
    case None => Err(MissingKey("affiliation"))
    case Some(affs) =>
      var institutions :- MapAll(affs, ConvertAffiliation);
      Ok(PaperAuthor(Author(AuthorName(a), [], [], [], None), institutions))
  }

  function TitleOf(titles: Option<seq<string>>): Result<string, Failure>
  {
    match titles
    case None => Err(MissingKey("title"))
    case Some(ts) => if ts == [] then Err(EmptySequence("title")) else Ok(ts[0])
  }

  /** The date holder `parse_paper` reads, when there is an event. */
  function EventHolder(e: Entry): Option<DateHolder>
  {
    if e.event.Some? then ReleaseDateHolder(e, e.event.value) else None
  }

  /** `parse_paper`: the release is built first, then title, authors, abstract and link. */
  function ParsePaper(e: Entry): (r: Result<Paper, Failure>)
    ensures r.Ok? <==>
      && EventReleases(e.event, EventHolder(e)).Ok?
      && TitleOf(e.title).Ok?
      && (e.author.Some? ==> forall i :: 0 <= i < |e.author.value| ==> ConvertAuthor(e.author.value[i]).Ok?)
      && e.url.Some?
    ensures r.Ok? ==> r.value.releases == EventReleases(e.event, EventHolder(e)).value
    ensures e.event.Some? && ReleaseDateHolder(e, e.event.value).None? ==> r == Err(UnboundDate)
    ensures e.url.None? ==> r.Err?
    ensures r.Ok? ==> r.value.quality == [0] && r.value.topics == []
    ensures r.Ok? ==> r.value.links == [Link("doi", e.url.value)]
    ensures r.Ok? ==> e.title.Some? && e.title.value != [] && r.value.title == e.title.value[0]
    ensures r.Ok? ==> r.value.abstractText == (if e.abstractText.Some? then e.abstractText.value else "")
    ensures r.Ok? ==> (e.author.None? ==> r.value.authors == [])
    ensures r.Ok? && e.author.Some? ==> (
      && |r.value.authors| == |e.author.value|
      && forall i :: 0 <= i < |e.author.value| ==>
           ConvertAuthor(e.author.value[i]) == Ok(r.value.authors[i]) && r.value.authors[i].author.name == AuthorName(e.author.value[i]))
    ensures r.Ok? ==> (|r.value.releases| == 1 <==> e.event.Some?) && (r.value.releases == [] <==> e.event.None?)
    ensures r.Ok? && e.event.Some? ==> DateOf(ReleaseDateHolder(e, e.event.value)).Ok?
    ensures r.Ok? && e.event.Some? ==>
      r.value.releases[0].venue.name == e.event.value.name
      && r.value.releases[0].venue.series == e.event.value.name
      && r.value.releases[0].venue.quality == Some([1])
      && r.value.releases[0].venue.date == DateOf(ReleaseDateHolder(e, e.event.value)).value.date
  {
    var releases :- EventReleases(e.event, EventHolder(e));
    var title :- TitleOf(e.title);
    var authors :- if e.author.Some? then MapAll(e.author.value, ConvertAuthor) else Ok([]);
    var abstractText := if e.abstractText.Some? then e.abstractText.value else "";
    match e.url
    case None => Err(MissingKey("URL"))
    case Some(url) => Ok(Paper(title, abstractText, authors, [Link("doi", url)], [], releases, [0]))
  }

  /** `parse_paper` as written, on a record decoded from JSON: `getattr` on a
      dict finds no attribute, so the event (and with it every date field)
      reads as absent. */
  function ParsePaperAsWritten(e: Entry): (r: Result<Paper, Failure>)
    ensures r.Ok? ==> r.value.releases == []
  {
    ParsePaper(e.(event := None))
  }

  /** As written, a record with an event that `ParsePaper` turns into a paper
      with its conference release still parses, but loses the release. */
  lemma EventDroppedAsWritten(e: Entry)
    requires e.event.Some? && ParsePaper(e).Ok?
    ensures ParsePaperAsWritten(e).Ok?
    ensures ParsePaperAsWritten(e).value.releases == [] && |ParsePaper(e).value.releases| == 1
    ensures ParsePaperAsWritten(e).value == ParsePaper(e).value.(releases := [])
  {
  }

  /** The record `{"event": {"name": "Conf", "start": {"date-parts": [[2020]]}},
      "title": ["T"], "URL": "u"}` gets its conference release when the event
      is read as an optional key, and none as written. */
  lemma EventDroppedExample()
    ensures var e := Entry(Some(["T"]), None, None, Some("u"), Some(Event("Conf", Some(DateHolder([[2020]])))), None, None, None, None);
      && ParsePaper(e).Ok? && |ParsePaper(e).value.releases| == 1
      && ParsePaperAsWritten(e).Ok? && ParsePaperAsWritten(e).value.releases == []
  {
    var e := Entry(Some(["T"]), None, None, Some("u"), Some(Event("Conf", Some(DateHolder([[2020]])))), None, None, None, None);
    assert Pad([2020]) == [2020, 1, 1];
    assert ResolveParts([2020]).Ok?;
    EventDroppedAsWritten(e);
  }

  /** `query`: papers are yielded one at a time, so a record that raises ends
      the stream after the papers already produced. */
  method Query(entries: seq<Entry>) returns (papers: seq<Paper>, failure: Option<Failure>)
    ensures |papers| <= |entries|
    ensures forall i :: 0 <= i < |papers| ==> ParsePaper(entries[i]) == Ok(papers[i])
    ensures failure.None? <==> |papers| == |entries|
    ensures failure.Some? ==> ParsePaper(entries[|papers|]) == Err(failure.value)
  {
    papers, failure := [], None;
    var i := 0;
    while i < |entries|
      invariant 0 <= i <= |entries| && |papers| == i
      invariant forall j :: 0 <= j < i ==> ParsePaper(entries[j]) == Ok(papers[j])
    {
      var parsed := ParsePaper(entries[i]);
      if parsed.Err? {
        failure := Some(parsed.error);
        return;
      }
      papers := papers + [parsed.value];
      i := i + 1;
    }
  }

  /** `acquire`: one Meta stamped with the clock reading `now`, then the query's papers. */
  method Acquire(now: int, entries: seq<Entry>) returns (items: seq<Item>, failure: Option<Failure>)
    ensures 1 <= |items| <= |entries| + 1 && items[0] == MetaItem(Meta("crossref", now))
    ensures forall i :: 1 <= i < |items| ==> items[i].PaperItem? && ParsePaper(entries[i - 1]) == Ok(items[i].paper)
    ensures failure.None? <==> |items| == |entries| + 1
    ensures failure.Some? ==> |items| <= |entries| && ParsePaper(entries[|items| - 1]) == Err(failure.value)
  {
    var papers;
    papers, failure := Query(entries);
    items := [MetaItem(Meta("crossref", now))] + seq(|papers|, i requires 0 <= i < |papers| => PaperItem(papers[i]));
  }

  /** A record with given and family names but no `affiliation` key is rejected,
      while the same author with an empty affiliation list is named "Ada Lovelace". */
  lemma AffiliationKeyRequired()
    ensures ConvertAuthor(RawAuthor(Some("Ada"), Some("Lovelace"), None)) == Err(MissingKey("affiliation"))
    ensures ConvertAuthor(RawAuthor(Some("Ada"), Some("Lovelace"), Some([])))
      == Ok(PaperAuthor(Author("Ada Lovelace", [], [], [], None), []))
  {
    assert "Ada" + " " + "Lovelace" == "Ada Lovelace";
  }
}
