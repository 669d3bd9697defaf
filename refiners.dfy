/** The individual refiners: each takes a paper and one of its links and
    either declines (`None`), produces a refined Paper, or raises. What the
    refiners fetch over the network is an input, a `Network`, so that only
    their own decisions are modelled. */
module Refiners {
  import opened Wrappers
  import opened Model
  import opened Dates
  import opened Text
  import Crossref
  import Jats
  import opened Registry

  /** The Crossref works API reply: `status` and the `message` record. */
  datatype CrossrefReply = CrossrefReply(status: string, message: Crossref.Entry)

  /** The bioRxiv details API reply: whether `{"status": "ok"}` is among the
      messages, and the `jatsxml` address of each collection entry. */
  datatype BiorxivReply = BiorxivReply(statusOk: bool, jatsUrls: seq<string>)

  /** What each refiner would read from outside the program. */
  datatype Network = Network(
    xploreKey: Option<string>,                                     // XPLORE_API_KEY
    ieee: string -> Result<Paper, Failure>,                        // IEEE Xplore search by DOI, parsed
    crossref: string -> CrossrefReply,                             // api.crossref.org/v1/works/{doi}
    biorxiv: string -> BiorxivReply,                               // api.biorxiv.org/details/biorxiv/{doi}
    jats: string -> Jats.Article,                                  // a JATS document, by address
    sciencedirect: string -> Result<Option<Paper>, Failure>,       // the ScienceDirect scrape after the prefix test
    pmc: string -> Jats.Article,                                   // PubMed Central OAI record, by id
    pdfAffiliations: (Paper, Link) -> Result<seq<(Author, seq<Institution>)>, Failure>)  // full text, institutions, find_fulltext_affiliations

  /** `_only_if_affiliations`: keep a paper only when some author has an affiliation. */
  function OnlyIfAffiliations(p: Option<Paper>): (r: Option<Paper>)
    ensures r.Some? <==> p.Some? && HasAffiliations(p.value.authors)
    ensures r.Some? ==> r == p
  {
    if p.Some? && HasAffiliations(p.value.authors) then p else None
  }

  /** A Paper that raised becomes an error; a produced Paper is a non-null result. */
  function Produced(r: Result<Paper, Failure>): (o: Result<Option<Paper>, Failure>)
    ensures r.Ok? <==> o.Ok?
    ensures r.Ok? ==> o.value == Some(r.value)
    ensures r.Err? ==> o.error == r.error
  {
    match r
    case Ok(p) => Ok(Some(p))
    case Err(e) => Err(e)
  }

  /** `refine_doi_with_ieeexplore`: only DOIs of the IEEE prefix, and only with an API key. */
  function RefineIeee(net: Network, link: Link): (r: Result<Option<Paper>, Failure>)
    ensures !StartsWith(link.target, "10.1109/") ==> r == Ok(None)
    ensures net.xploreKey.None? || net.xploreKey == Some("") ==> r == Ok(None)
    ensures r != Ok(None) ==> r == Produced(net.ieee(link.target))
  {
    if !StartsWith(link.target, "10.1109/") then Ok(None)
    else if net.xploreKey.None? || net.xploreKey.value == "" then Ok(None)
    else Produced(net.ieee(link.target))
  }

  /** The holder the Crossref refiner reads: the event start when present,
      otherwise the LAST date field present, since its loop has no `break`. */
  function RefinerDateHolder(e: Crossref.Entry, evt: Crossref.Event): Option<Crossref.DateHolder>
  {
    if evt.start.Some? then evt.start else LastPresent(Crossref.DateCandidates(e))
  }

  /** What the refiner's date loop leaves in `date_parts`: every present field
      is subscripted with `["date-parts"][0]` in turn, so the first one whose
      list is empty raises, and otherwise the last one present wins. */
  function LastParts(cs: seq<Option<Crossref.DateHolder>>): Result<Option<seq<int>>, Failure>
  {
    if cs == [] then Ok(None)
    else
      var prev := LastParts(cs[..|cs| - 1]);
      var last := cs[|cs| - 1];
      if prev.Err? || last.None? then prev
      else if last.value.dateParts == [] then Err(EmptySequence("date-parts"))
      else Ok(Some(last.value.dateParts[0]))
  }

  /** The loop raises exactly when some present field has no date-parts, and
      otherwise reads the first row of the last present field. */
  lemma {:induction false} LastPartsSpec(cs: seq<Option<Crossref.DateHolder>>)
    ensures LastParts(cs).Err? <==> exists k :: 0 <= k < |cs| && cs[k].Some? && cs[k].value.dateParts == []
    ensures LastParts(cs).Err? ==> LastParts(cs).error == EmptySequence("date-parts")
    ensures LastParts(cs).Ok? ==> (LastParts(cs).value.None? <==> LastPresent(cs).None?)
    ensures LastParts(cs).Ok? && LastPresent(cs).Some? ==>
      LastPresent(cs).value.dateParts != [] && LastParts(cs).value == Some(LastPresent(cs).value.dateParts[0])
  {
    if cs != [] {
      var p := cs[..|cs| - 1];
      LastPartsSpec(p);
      assert forall k :: 0 <= k < |p| ==> p[k] == cs[k];
      assert cs == p + [cs[|cs| - 1]];
    }
  }

  /** `date_parts` as the refiner computes it for an event. */
  function RefinerDateParts(e: Crossref.Entry, evt: Crossref.Event): Result<Option<seq<int>>, Failure>
  {
    if evt.start.Some? then
      (if evt.start.value.dateParts == [] then Err(EmptySequence("date-parts")) else Ok(Some(evt.start.value.dateParts[0])))
    else LastParts(Crossref.DateCandidates(e))
  }

  /** The date-choice loop of the Crossref refiner, which runs to the end. */
  method SelectRefinerDateParts(e: Crossref.Entry, evt: Crossref.Event) returns (r: Result<Option<seq<int>>, Failure>)
    ensures r == RefinerDateParts(e, evt)
  {
    if evt.start.Some? {
      if evt.start.value.dateParts == [] {
        return Err(EmptySequence("date-parts"));
      }
      return Ok(Some(evt.start.value.dateParts[0]));
    }
    var fields := Crossref.DateCandidates(e);
    var parts: Option<seq<int>> := None;
    for i := 0 to |fields|
      invariant LastParts(fields[..i]) == Ok(parts)
    {
      assert fields[..i + 1][..i] == fields[..i];
      if fields[i].Some? {
        if fields[i].value.dateParts == [] {
          LastPartsSpec(fields);
          return Err(EmptySequence("date-parts"));
        }
        parts := Some(fields[i].value.dateParts[0]);
      }
    }
    assert fields[..|fields|] == fields;
    return Ok(parts);
  }

  /** The release list the refiner builds for an event: the date parts, then
      the precision, padding and calendar check of the shared resolver. A
      field without date-parts raises even when a later field would do. */
  function RefinerReleases(e: Crossref.Entry, evt: Crossref.Event): (r: Result<seq<Release>, Failure>)
    ensures evt.start.Some? ==> r == Crossref.EventReleases(Some(evt), evt.start)
    ensures evt.start.None? && (exists k :: 0 <= k < 4 && Crossref.DateCandidates(e)[k].Some? && Crossref.DateCandidates(e)[k].value.dateParts == [])
      ==> r == Err(EmptySequence("date-parts"))
    ensures evt.start.None? && (forall k :: 0 <= k < 4 && Crossref.DateCandidates(e)[k].Some? ==> Crossref.DateCandidates(e)[k].value.dateParts != [])
      ==> r == Crossref.EventReleases(Some(evt), RefinerDateHolder(e, evt))
  {
    LastPartsSpec(Crossref.DateCandidates(e));
    match RefinerDateParts(e, evt)
    case Err(f) => Err(f)
    case Ok(None) => Err(UnboundDate)
    case Ok(Some(parts)) =>
      var info :- ResolveParts(parts);
      Ok([Crossref.ConferenceRelease(evt.name, info)])
  }

  /** An author as the Crossref refiner reads it: `given`, `family` and
      `affiliation` are all subscripted, so each one's absence raises. */
  function StrictAuthor(a: Crossref.RawAuthor): (r: Result<PaperAuthor, Failure>)
    ensures a.given.None? ==> r == Err(MissingKey("given"))
    ensures a.given.Some? && a.family.None? ==> r == Err(MissingKey("family"))
    ensures a.given.Some? && a.family.Some? ==> r == Crossref.ConvertAuthor(a)
    ensures r.Ok? ==> r.value.author.name == a.given.value + " " + a.family.value
  {
    if a.given.None? then Err(MissingKey("given"))
    else if a.family.None? then Err(MissingKey("family"))
    else Crossref.ConvertAuthor(a)
  }

  /** The Paper the Crossref refiner builds from the `message` record. */
  function CrossrefRefinerPaper(doi: string, e: Crossref.Entry): (r: Result<Paper, Failure>)
    ensures r.Ok? <==>
      && (e.event.Some? ==> RefinerReleases(e, e.event.value).Ok?)
      && Crossref.TitleOf(e.title).Ok?
      && e.author.Some?
      && forall i :: 0 <= i < |e.author.value| ==> StrictAuthor(e.author.value[i]).Ok?
    ensures e.event.Some? && RefinerReleases(e, e.event.value).Err? ==> r == Err(RefinerReleases(e, e.event.value).error)
    ensures e.event.Some? && RefinerDateHolder(e, e.event.value).None? ==> r == Err(UnboundDate)
    ensures e.event.Some? && e.event.value.start.None? &&
      (exists k :: 0 <= k < 4 && Crossref.DateCandidates(e)[k].Some? && Crossref.DateCandidates(e)[k].value.dateParts == [])
      ==> r == Err(EmptySequence("date-parts"))
    ensures e.author.None? ==> r.Err?
    ensures r.Ok? ==> r.value.abstractText == "" && r.value.topics == [] && r.value.quality == [0]
    ensures r.Ok? ==> r.value.links == [Link("doi", doi)]
    ensures r.Ok? ==> e.title.Some? && e.title.value != [] && r.value.title == e.title.value[0]
    ensures r.Ok? ==> (
      && e.author.Some?
      && |r.value.authors| == |e.author.value|
      && forall i :: 0 <= i < |e.author.value| ==> StrictAuthor(e.author.value[i]) == Ok(r.value.authors[i]))
    ensures r.Ok? ==> (r.value.releases == [] <==> e.event.None?)
    ensures r.Ok? && e.event.Some? ==> (
      && Crossref.DateOf(RefinerDateHolder(e, e.event.value)).Ok?
      && r.value.releases == [Crossref.ConferenceRelease(e.event.value.name, Crossref.DateOf(RefinerDateHolder(e, e.event.value)).value)])
  {
    var releases :- if e.event.Some? then RefinerReleases(e, e.event.value) else Ok([]);
    var title :- Crossref.TitleOf(e.title);
    var raw :- if e.author.Some? then Ok(e.author.value) else Err(MissingKey("author"));
    var authors :- MapAll(raw, StrictAuthor);
    Ok(Paper(title, "", authors, [Link("doi", doi)], [], releases, [0]))
  }

  /** `refine_doi_with_crossref`: declines arXiv DOIs and replies whose status is not "ok". */
  function RefineCrossref(net: Network, link: Link): (r: Result<Option<Paper>, Failure>)
    ensures Contains(link.target, "arXiv") ==> r == Ok(None)
    ensures !Contains(link.target, "arXiv") && net.crossref(link.target).status != "ok" ==> r == Ok(None)
    ensures r != Ok(None) ==> r == Produced(CrossrefRefinerPaper(link.target, net.crossref(link.target).message))
  {
    if Contains(link.target, "arXiv") then Ok(None)
    else
      var reply := net.crossref(link.target);
      if reply.status != "ok" then Ok(None)
      else Produced(CrossrefRefinerPaper(link.target, reply.message))
  }

  /** `refine_doi_with_biorxiv`: only DOIs of the bioRxiv prefix with an "ok" reply
      holding at least one entry, whose JATS document is then read. */
  function RefineBiorxiv(net: Network, link: Link): (r: Result<Option<Paper>, Failure>)
    ensures !StartsWith(link.target, "10.1101/") ==> r == Ok(None)
    ensures !net.biorxiv(link.target).statusOk || net.biorxiv(link.target).jatsUrls == [] ==> r == Ok(None)
    ensures r != Ok(None) ==>
      r == Produced(Jats.PaperFromJats(net.jats(net.biorxiv(link.target).jatsUrls[0]), [Link("doi", link.target)]))
  {
    if !StartsWith(link.target, "10.1101/") then Ok(None)
    else
      var reply := net.biorxiv(link.target);
      if !reply.statusOk || reply.jatsUrls == [] then Ok(None)
      else Produced(Jats.PaperFromJats(net.jats(reply.jatsUrls[0]), [Link("doi", link.target)]))
  }

  /** `refine_doi_with_sciencedirect`: only DOIs of the Elsevier prefix. */
  function RefineScienceDirect(net: Network, link: Link): (r: Result<Option<Paper>, Failure>)
    ensures !StartsWith(link.target, "10.1016/") ==> r == Ok(None)
    ensures r != Ok(None) ==> r == net.sciencedirect(link.target)
  {
    if !StartsWith(link.target, "10.1016/") then Ok(None) else net.sciencedirect(link.target)
  }

  /** `refine_with_pubmedcentral`: the OAI record read as JATS, linked by its PMC id. */
  function RefinePubMedCentral(net: Network, link: Link): (r: Result<Option<Paper>, Failure>)
    ensures r.Ok? <==> Jats.PaperFromJats(net.pmc(link.target), [Link("pmc", link.target)]).Ok?
    ensures r.Ok? ==> r.value == Some(Jats.PaperFromJats(net.pmc(link.target), [Link("pmc", link.target)]).value)
    ensures r.Err? ==> r.error == Jats.PaperFromJats(net.pmc(link.target), [Link("pmc", link.target)]).error
    ensures r.Ok? ==> r.value.Some? && r.value.value.links == [Link("pmc", link.target)]
  {
    Produced(Jats.PaperFromJats(net.pmc(link.target), [Link("pmc", link.target)]))
  }

  /** The authors `_pdf_refiner` reports, each with the affiliations found for it. */
  function PdfAuthors(found: seq<(Author, seq<Institution>)>): (r: seq<PaperAuthor>)
    ensures |r| == |found|
    ensures forall i :: 0 <= i < |found| ==>
      r[i] == PaperAuthor(Author(found[i].0.name, [], [], [], found[i].0.quality), found[i].1)
  {
    seq(|found|, i requires 0 <= i < |found| => PaperAuthor(Author(found[i].0.name, [], [], [], found[i].0.quality), found[i].1))
  }

  /** `_pdf_refiner`: raises when the full text or the institution table cannot
      be read; declines when the full text yields no author affiliations;
      otherwise keeps the paper's title and reports the affiliations found. */
  function RefinePdf(net: Network, paper: Paper, link: Link): (r: Result<Option<Paper>, Failure>)
    ensures r.Err? <==> net.pdfAffiliations(paper, link).Err?
    ensures r.Err? ==> r.error == net.pdfAffiliations(paper, link).error
    ensures r.Ok? ==> (r.value.Some? <==> net.pdfAffiliations(paper, link).value != [])
    ensures r.Ok? && r.value.Some? ==> (
      && r.value.value.title == paper.title
      && r.value.value.abstractText == ""
      && r.value.value.authors == PdfAuthors(net.pdfAffiliations(paper, link).value)
      && r.value.value.links == [link]
      && r.value.value.releases == [] && r.value.value.topics == []
      && r.value.value.quality == [0])
  {
    var found :- net.pdfAffiliations(paper, link);
    if found == [] then Ok(None)
    else Ok(Some(Paper(paper.title, "", PdfAuthors(found), [link], [], [], [0])))
  }

  /** Calls the refiner a candidate names on the candidate's link. */
  function Invoke(net: Network, paper: Paper, c: Candidate): Result<Option<Paper>, Failure>
  {
    match c.refiner
    case Ieee => RefineIeee(net, c.link)
    case CrossrefRefiner => RefineCrossref(net, c.link)
    case Biorxiv => RefineBiorxiv(net, c.link)
    case ScienceDirect => RefineScienceDirect(net, c.link)
    case PubMedCentral => RefinePubMedCentral(net, c.link)
    case ArxivPdf => RefinePdf(net, paper, c.link)
    case CrossrefPdf => RefinePdf(net, paper, c.link)
    case OpenReviewPdf => RefinePdf(net, paper, c.link)
    case PdfLink => RefinePdf(net, paper, c.link)
  }

  /** The two Crossref date resolvers agree whenever at most one date field is
      present, since first and last present then coincide. */
  lemma {:induction false} ResolversAgreeOnOneField(e: Crossref.Entry, evt: Crossref.Event, k: nat)
    requires k < 4
    requires forall i :: 0 <= i < 4 && i != k ==> Crossref.DateCandidates(e)[i].None?
    ensures RefinerDateHolder(e, evt) == Crossref.ReleaseDateHolder(e, evt)
  {
    var cs := Crossref.DateCandidates(e);
    if cs[k].None? {
      assert forall i :: 0 <= i < |cs| ==> cs[i].None?;
    }
  }

  /** With both a print date and a creation date and no event start, the
      scraper reads the print date and the refiner the creation date. When
      both carry date-parts, each release is dated by the holder it reads;
      when either is empty, the refiner raises. */
  lemma ResolversDisagree(printed: Crossref.DateHolder, created: Crossref.DateHolder)
    requires printed != created
    ensures var e := Crossref.Entry(None, None, None, None, Some(Crossref.Event("Conf", None)),
              Some(printed), None, None, Some(created));
      && Crossref.ReleaseDateHolder(e, e.event.value) == Some(printed)
      && RefinerDateHolder(e, e.event.value) == Some(created)
      && Crossref.EventReleases(e.event, Crossref.EventHolder(e)) == Crossref.EventReleases(e.event, Some(printed))
      && (printed.dateParts != [] && created.dateParts != [] ==>
            RefinerReleases(e, e.event.value) == Crossref.EventReleases(e.event, Some(created)))
      && (printed.dateParts == [] || created.dateParts == [] ==>
            RefinerReleases(e, e.event.value) == Err(EmptySequence("date-parts")))
  {
    var e := Crossref.Entry(None, None, None, None, Some(Crossref.Event("Conf", None)),
      Some(printed), None, None, Some(created));
    var cs := Crossref.DateCandidates(e);
    assert cs[0] == Some(printed) && cs[3] == Some(created);
  }
}
