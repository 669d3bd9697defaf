/** The canonical entity model: papers, authors, institutions, venues,
    releases, links and the acquisition marker. Values only; nothing here
    changes after construction. */
module Model {
  import opened Wrappers

  datatype DatePrecision = Year | Month | Day

  /** A calendar date as the triple handed to `datetime(year, month, day)`. */
  datatype Date = Date(year: int, month: int, day: int)

  /** A resolved date together with how much of it the source vouched for. */
  datatype DateInfo = DateInfo(date: Date, precision: DatePrecision)

  datatype InstitutionCategory = Unknown | Academic | Industry

  datatype VenueType = Journal | Conference

  /** `Link(type=..., link=...)`; `type` is a Dafny keyword, hence `kind`. */
  datatype Link = Link(kind: string, target: string)

  datatype Topic = Topic(name: string)

  datatype Institution = Institution(name: string, category: InstitutionCategory, aliases: seq<string>)

  /** `quality` is `None` where the constructor call leaves the field to its default. */
  datatype Author = Author(
    name: string,
    roles: seq<string>,
    aliases: seq<string>,
    links: seq<Link>,
    quality: Option<seq<int>>)

  /** An author together with the affiliations attributed to them for one paper. */
  datatype PaperAuthor = PaperAuthor(author: Author, affiliations: seq<Institution>)

  /** Fields a constructor call does not pass are `None`. */
  datatype Venue = Venue(
    name: string,
    venueType: VenueType,
    series: string,
    aliases: seq<string>,
    links: seq<Link>,
    open: Option<bool>,
    peerReviewed: Option<bool>,
    publisher: Option<string>,
    datePrecision: DatePrecision,
    date: Date,
    quality: Option<seq<int>>)

  datatype Release = Release(venue: Venue, status: string, pages: Option<string>)

  datatype Paper = Paper(
    title: string,
    abstractText: string,
    authors: seq<PaperAuthor>,
    links: seq<Link>,
    topics: seq<Topic>,
    releases: seq<Release>,
    quality: seq<int>)

  /** Emitted once at the head of an acquisition run; the clock reading is an input. */
  datatype Meta = Meta(scraper: string, date: int)

  /** Why a normaliser raised: the Python exception each case stands for is named. */
  datatype Failure =
    | MissingKey(key: string)        // KeyError / AttributeError on an absent field
    | MissingElement(name: string)   // AttributeError on `None.text` after a failed lookup
    | EmptySequence(what: string)    // IndexError on `[0]` of an empty list
    | PrecisionIndex(count: nat)     // IndexError on the precision table (more than 3 parts)
    | UnboundDate                    // the date variable is never assigned
    | InvalidDate(date: Date)        // ValueError from `datetime(...)`

  /** True when some author of the list has at least one affiliation. */
  predicate HasAffiliations(authors: seq<PaperAuthor>)
  {
    exists i :: 0 <= i < |authors| && authors[i].affiliations != []
  }
}
