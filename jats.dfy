/** A Paper read from a JATS article document, as the bioRxiv and PubMed
    Central refiners do. The document is given as the elements the reader
    selects, already located. */
module Jats {
  import opened Wrappers
  import opened Model
  import opened Dates
  import opened Text

  /** A `pub-date` element: the numbers in its `year`, `month` and `day` children, when present. */
  datatype PubDate = PubDate(year: Option<int>, month: Option<int>, day: Option<int>)

  /** A `contrib[contrib-type="author"]`: its `given-names` texts, its `surname`
      text, and the `rid` of each of its `xref[ref-type="aff"]`. */
  datatype Contrib = Contrib(givenNames: seq<string>, surname: Option<string>, affRefs: seq<string>)

  /** An `aff` element: its id, the text of its `institution` child if any, and its whole text. */
  datatype Aff = Aff(id: string, institution: Option<string>, text: string)

  datatype Article = Article(
    stringDate: Option<DateInfo>,  // `pub-date[date-type="pub"] string-date`, as read by extract_date
    ppub: Option<PubDate>,         // `pub-date[pub-type="ppub"]`
    pub: Option<PubDate>,          // `pub-date[date-type="pub"]`
    epub: Option<PubDate>,         // `pub-date[pub-type="epub"]`
    articleTitle: Option<string>,
    contribs: seq<Contrib>,
    affs: seq<Aff>,
    journalTitle: Option<string>,
    publisherName: Option<string>,
    keywords: seq<string>)         // `kwd-group kwd`

  /** The date of a `pub-date` element: missing month and day become 1, and the
      precision says which of them were present. */
  function PubDateInfo(pd: PubDate): (r: Result<DateInfo, Failure>)
    ensures pd.year.None? ==> r == Err(MissingElement("year"))
    ensures r.Ok? ==> r.value.date == Date(pd.year.value,
      if pd.month.Some? then pd.month.value else 1,
      if pd.day.Some? then pd.day.value else 1)
    ensures r.Ok? ==> (r.value.precision == Day <==> pd.day.Some?)
    ensures r.Ok? ==> (r.value.precision == Month <==> pd.day.None? && pd.month.Some?)
    ensures r.Ok? ==> (r.value.precision == Year <==> pd.day.None? && pd.month.None?)
    ensures pd.year.Some? ==> (r.Ok? <==> IsValidDate(Date(pd.year.value,
      if pd.month.Some? then pd.month.value else 1,
      if pd.day.Some? then pd.day.value else 1)))
  {
    match pd.year
    case None => Err(MissingElement("year"))
    case Some(y) =>
      var date := Date(y, if pd.month.Some? then pd.month.value else 1, if pd.day.Some? then pd.day.value else 1);
      var precision := if pd.day.Some? then Day else if pd.month.Some? then Month else Year;
      if IsValidDate(date) then Ok(DateInfo(date, precision)) else Err(InvalidDate(date))
  }

  /** The `pub-date` used when there is no string date: print, then pub, then electronic. */
  function ChosenPubDate(a: Article): Option<PubDate>
  {
    FirstPresent([a.ppub, a.pub, a.epub])
  }

  /** The date computed before the Paper is built. `Ok(None)` means no date was
      assigned, which only raises later, where the venue reads it. */
  function ArticleDate(a: Article): (r: Result<Option<DateInfo>, Failure>)
    ensures a.stringDate.Some? ==> r == Ok(a.stringDate)
    ensures a.stringDate.None? && ChosenPubDate(a).None? ==> r == Ok(None)
    ensures a.stringDate.None? && ChosenPubDate(a).Some? ==>
      match PubDateInfo(ChosenPubDate(a).value)
      case Ok(info) => r == Ok(Some(info))
      case Err(f) => r == Err(f)
  {
    if a.stringDate.Some? then Ok(a.stringDate)
    else
      match ChosenPubDate(a)
      case None => Ok(None)
      case Some(pd) =>
        var info :- PubDateInfo(pd);
        Ok(Some(info))
  }

  /** The first `aff` whose id matches, as an id selector does. */
  function FindAff(affs: seq<Aff>, id: string): (r: Option<Aff>)
    ensures r.Some? ==> r.value in affs && r.value.id == id
    ensures r.Some? ==> exists k :: 0 <= k < |affs| && affs[k] == r.value && forall i :: 0 <= i < k ==> affs[i].id != id
    ensures r.None? ==> forall i :: 0 <= i < |affs| ==> affs[i].id != id
  {
    if affs == [] then None
    else if affs[0].id == id then Some(affs[0])
    else FindAff(affs[1..], id)
  }

  /** `find_affiliation`: the institution text of the referenced `aff`, or its
      whole text, without leading digits (the footnote label). */
  function AffiliationOf(affs: seq<Aff>, rid: string): (r: Result<Institution, Failure>)
    ensures r.Err? <==> FindAff(affs, rid).None?
    ensures r.Ok? ==> r.value.category == Unknown && r.value.aliases == []
    ensures r.Ok? ==> r.value.name == [] || !IsDigit(r.value.name[0])
    ensures r.Ok? ==> r.value.name == StripLeadingDigits(
      if FindAff(affs, rid).value.institution.Some? then FindAff(affs, rid).value.institution.value else FindAff(affs, rid).value.text)
  {
    match FindAff(affs, rid)
    case None => Err(MissingElement("aff#" + rid))
    case Some(aff) =>
      var text := if aff.institution.Some? then aff.institution.value else aff.text;
      Ok(Institution(StripLeadingDigits(text), Unknown, []))
  }

  /** A contributor kept for the author list, with its surname text. */
  datatype NamedContrib = NamedContrib(givenNames: seq<string>, surname: string, affRefs: seq<string>)

  /** The contributors that have a surname, in document order. */
  function WithSurname(cs: seq<Contrib>): (r: seq<NamedContrib>)
    ensures |r| <= |cs|
    ensures forall i :: 0 <= i < |cs| && cs[i].surname.Some? ==>
      NamedContrib(cs[i].givenNames, cs[i].surname.value, cs[i].affRefs) in r
    ensures forall i :: 0 <= i < |r| ==>
      Contrib(r[i].givenNames, Some(r[i].surname), r[i].affRefs) in cs
  {
    if cs == [] then []
    else
      var rest := WithSurname(cs[1..]);
      assert forall i :: 1 <= i < |cs| ==> cs[i] == cs[1..][i - 1];
      if cs[0].surname.Some? then [NamedContrib(cs[0].givenNames, cs[0].surname.value, cs[0].affRefs)] + rest
      else rest
  }

  /** How many of the first k contributors have a surname. */
  function SurnamedBefore(cs: seq<Contrib>, k: nat): (r: nat)
    requires k <= |cs|
    ensures r <= k
  {
    if k == 0 then 0 else (if cs[0].surname.Some? then 1 else 0) + SurnamedBefore(cs[1..], k - 1)
  }

  /** There is one kept contributor per contributor with a surname. */
  lemma {:induction false} WithSurnameCount(cs: seq<Contrib>)
    ensures |WithSurname(cs)| == SurnamedBefore(cs, |cs|)
  {
    if cs != [] {
      WithSurnameCount(cs[1..]);
    }
  }

  /** The contributor at position k, when it has a surname, lands after all
      the kept contributors that precede it. */
  lemma {:induction false} WithSurnameAt(cs: seq<Contrib>, k: nat)
    requires k < |cs| && cs[k].surname.Some?
    ensures SurnamedBefore(cs, k) < |WithSurname(cs)|
    ensures WithSurname(cs)[SurnamedBefore(cs, k)] == NamedContrib(cs[k].givenNames, cs[k].surname.value, cs[k].affRefs)
  {
    var head := if cs[0].surname.Some? then [NamedContrib(cs[0].givenNames, cs[0].surname.value, cs[0].affRefs)] else [];
    var tail := WithSurname(cs[1..]);
    assert WithSurname(cs) == head + tail;
    if k == 0 {
      assert WithSurname(cs)[0] == head[0];
    } else {
      var q := SurnamedBefore(cs[1..], k - 1);
      WithSurnameAt(cs[1..], k - 1);
      assert cs[1..][k - 1] == cs[k];
      assert SurnamedBefore(cs, k) == |head| + q;
      assert (head + tail)[|head| + q] == tail[q];
    }
  }

  /** The kept contributors keep document order. */
  lemma WithSurnameOrder(cs: seq<Contrib>)
    ensures |WithSurname(cs)| == SurnamedBefore(cs, |cs|)
    ensures forall k :: 0 <= k < |cs| && cs[k].surname.Some? ==>
      SurnamedBefore(cs, k) < |WithSurname(cs)| &&
      WithSurname(cs)[SurnamedBefore(cs, k)] == NamedContrib(cs[k].givenNames, cs[k].surname.value, cs[k].affRefs)
  {
    WithSurnameCount(cs);
    forall k | 0 <= k < |cs| && cs[k].surname.Some?
      ensures SurnamedBefore(cs, k) < |WithSurname(cs)| &&
        WithSurname(cs)[SurnamedBefore(cs, k)] == NamedContrib(cs[k].givenNames, cs[k].surname.value, cs[k].affRefs)
    {
      WithSurnameAt(cs, k);
    }
  }

  /** One author: given names and surname joined by spaces, quality `(0,)`. */
  function ContribAuthor(affs: seq<Aff>, c: NamedContrib): (r: Result<PaperAuthor, Failure>)
    ensures r.Ok? ==> r.value.author.name == Join(" ", c.givenNames + [c.surname])
    ensures r.Ok? ==> r.value.author.quality == Some([0])
    ensures r.Ok? <==> forall i :: 0 <= i < |c.affRefs| ==> FindAff(affs, c.affRefs[i]).Some?
    ensures r.Ok? ==> (
      && |r.value.affiliations| == |c.affRefs|
      && forall i :: 0 <= i < |c.affRefs| ==> AffiliationOf(affs, c.affRefs[i]) == Ok(r.value.affiliations[i]))
  {
    var institutions :- MapAll(c.affRefs, rid => AffiliationOf(affs, rid));
    assert forall i :: 0 <= i < |c.affRefs| ==> AffiliationOf(affs, c.affRefs[i]) == Ok(institutions[i]);
    Ok(PaperAuthor(Author(Join(" ", c.givenNames + [c.surname]), [], [], [], Some([0])), institutions))
  }

  /** One author per contributor with a surname, or the first contributor's error. */
  function ArticleAuthors(a: Article): (r: Result<seq<PaperAuthor>, Failure>)
    ensures r.Ok? ==> forall i :: 0 <= i < |WithSurname(a.contribs)| ==> ContribAuthor(a.affs, WithSurname(a.contribs)[i]).Ok?
    ensures (forall i :: 0 <= i < |WithSurname(a.contribs)| ==> ContribAuthor(a.affs, WithSurname(a.contribs)[i]).Ok?) ==> r.Ok?
    ensures r.Ok? ==> (
      && |r.value| == |WithSurname(a.contribs)|
      && forall i :: 0 <= i < |r.value| ==> ContribAuthor(a.affs, WithSurname(a.contribs)[i]) == Ok(r.value[i]))
    ensures r.Err? ==> exists k :: (
      && 0 <= k < |WithSurname(a.contribs)|
      && ContribAuthor(a.affs, WithSurname(a.contribs)[k]) == Err(r.error)
      && forall i :: 0 <= i < k ==> ContribAuthor(a.affs, WithSurname(a.contribs)[i]).Ok?)
  {
    var named := WithSurname(a.contribs);
    var f := c => ContribAuthor(a.affs, c);
    assert forall i :: 0 <= i < |named| ==> f(named[i]) == ContribAuthor(a.affs, named[i]);
    MapAll(named, f)
  }

  /** `_paper_from_jats`: the date first, then the Paper's fields in keyword order. */
  function PaperFromJats(a: Article, links: seq<Link>): (r: Result<Paper, Failure>)
    ensures r.Ok? <==>
      && ArticleDate(a).Ok? && ArticleDate(a).value.Some?
      && a.articleTitle.Some?
      && ArticleAuthors(a).Ok?
      && a.journalTitle.Some?
      && a.publisherName.Some?
    ensures a.articleTitle.None? ==> r.Err?
    ensures a.stringDate.None? && ChosenPubDate(a).None? ==> r.Err?
    ensures r.Ok? ==> r.value.title == a.articleTitle.value
    ensures r.Ok? ==> r.value.abstractText == "" && r.value.links == links && r.value.quality == [0]
    ensures r.Ok? ==> ArticleAuthors(a) == Ok(r.value.authors)
    ensures r.Ok? ==> (
      && |r.value.topics| == |a.keywords|
      && forall i :: 0 <= i < |a.keywords| ==> r.value.topics[i] == Topic(a.keywords[i]))
    ensures r.Ok? ==> a.journalTitle.Some? && a.publisherName.Some?
    ensures a.journalTitle.None? || a.publisherName.None? ==> r.Err?
    ensures r.Ok? ==> (
      && |r.value.releases| == 1
      && r.value.releases[0].venue.name == a.journalTitle.value
      && r.value.releases[0].venue.series == a.journalTitle.value
      && r.value.releases[0].venue.venueType == Journal
      && r.value.releases[0].venue.publisher == a.publisherName
      && r.value.releases[0].venue.quality.None?
      && ArticleDate(a) == Ok(Some(DateInfo(r.value.releases[0].venue.date, r.value.releases[0].venue.datePrecision))))
  {
    var date :- ArticleDate(a);
    var title :- if a.articleTitle.Some? then Ok(a.articleTitle.value) else Err(MissingElement("article-title"));
    var authors :- ArticleAuthors(a);
    var journal :- if a.journalTitle.Some? then Ok(a.journalTitle.value) else Err(MissingElement("journal-title"));
    var info :- if date.Some? then Ok(date.value) else Err(UnboundDate);
    var publisher :- if a.publisherName.Some? then Ok(a.publisherName.value) else Err(MissingElement("publisher-name"));
    var venue := Venue(journal, Journal, journal, [], [], None, None, Some(publisher), info.precision, info.date, None);
    var topics := seq(|a.keywords|, i requires 0 <= i < |a.keywords| => Topic(a.keywords[i]));
    Ok(Paper(title, "", authors, links, topics, [Release(venue, "published", None)], [0]))
  }
}
