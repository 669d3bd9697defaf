# paperoni record logic, modelled in Dafny

This project models three pieces of the paperoni bibliography tool: the
Crossref scraper's normaliser, the refiner pipeline and the `search` command.

**Crossref normaliser.** A raw Crossref work record becomes a `Paper`.
- The release date comes from the event start, or else from the first date
  field present.
- The precision comes from the number of date components, and the date is
  padded with 1s.
- Author names are given and family name joined by a space.
- A missing abstract or author list has a default.
- A record with an event gets one conference release.

**Refiner pipeline.**
- A registry maps link types to prioritised refiners.
- For a paper's links, the applicable refiners are collected and ordered by
  descending priority. The sort is stable.
- Each refiner has its own guard: a DOI prefix, an `arXiv` test, an API
  status or an API key.
- Two payload readers build papers: the JATS reader (bioRxiv, PubMed Central)
  and the Crossref refiner.
- `_sd_find` is the recursive search over ScienceDirect's JSON.
- Several results merge into one paper, and `acquire` refines the stored
  papers with a limit and marks each refined link.

**`search` command.**
- `_date` widens a bare year into a bound.
- The command fans out one query per (researcher, role, id), or sends a
  single query.
- Every query is sent with the same ordering.
- The results are indexed by `Id` (last write wins), and are re-sorted only
  after several queries.

**How the model is built.**
- Pure code becomes functions on datatypes.
- Loops become methods whose `ensures` tie them to those functions.
- The refiner registry, a dictionary the decorators append to, becomes a
  class with a `map` field.
- Network payloads, the clock, the database and the `with_status` filter are
  parameters.

Python semantics are written out where they matter:
- `[year, month, day][n - 1]` reads index -1 when there are no components,
  giving day precision, and raises past three components.
- `re.match("^[0-9]+$")` accepts one trailing newline.
- `x and " ".join(x)` keeps an empty list.
- `limit and i == limit` never stops on a limit of 0.

The model follows the code as written in two places where a reader might expect otherwise:
- `crossref.py` subscripts `author["affiliation"]`, so an author without
  that key makes the record fail (`Crossref.AffiliationKeyRequired`).
- The Crossref refiner's date loop has no `break`, so the last present date
  field wins, and every present field is subscripted on the way, so an
  earlier field with an empty `date-parts` list raises even when a later
  one would do (`Refiners.SelectRefinerDateParts`, `Refiners.LastPartsSpec`,
  `Refiners.ResolversDisagree`).

## Model

| member | source | states |
|---|---|---|
| Dates.FirstPresent | paperoni/sources/scrapers/crossref.py:30-38 | the result is absent iff no candidate is present, and otherwise is the earliest present candidate |
| Dates.LastPresent | paperoni/sources/scrapers/refine.py:250-257 | the result is absent iff no candidate is present, and otherwise is the latest present candidate |
| Dates.Pad | paperoni/sources/scrapers/crossref.py:46 | up to three components are padded to exactly three; the original components are kept as a prefix and every added one is 1 |
| Dates.ResolveParts | paperoni/sources/scrapers/crossref.py:40-58 | more than three components is an index error. Precision is year, month or day for 1, 2 or 3 components (day for 0). Missing month and day are 1. With at most three components the result succeeds iff the padded date is a valid calendar date, and the error otherwise carries that padded date |
| Crossref.SelectDateHolder | paperoni/sources/scrapers/crossref.py:24-38 | an event start is used and nothing else is consulted; otherwise the first present of published-print, published, published-online, created; absent only when none is present |
| Crossref.DateOf | paperoni/sources/scrapers/crossref.py:26-37 | no holder is the unbound-variable error; an empty date-parts list is an error; otherwise the date is resolved from the first row |
| Crossref.EventReleases | paperoni/sources/scrapers/crossref.py:22-67 | no event gives no releases. An event gives exactly one conference release, named and series-named after the event, with quality (1,), status published and the resolved date and precision; it fails exactly when the date fails |
| Crossref.AuthorName | paperoni/sources/scrapers/crossref.py:75 | given + " " + family when both keys are present, else the empty string |
| Crossref.ConvertAuthor | paperoni/sources/scrapers/crossref.py:73-88 | succeeds iff the affiliation key is present and every affiliation has a name (a missing affiliation key is its own error); then one institution per affiliation, in order, named by that affiliation's name with unknown category and no aliases, and the author named by AuthorName |
| Crossref.ParsePaper | paperoni/sources/scrapers/crossref.py:21-97 | a paper is produced iff the event (if any) dates, the title list is non-empty, every author converts and the URL is present; an event with no date candidate is the unbound error. The paper's release list is exactly EventReleases for the chosen holder, its authors are exactly the ConvertAuthor results, named by AuthorName, its title is the first title, its abstract defaults to "", and it has quality (0,), no topics and the single doi link to URL |
| Crossref.ParsePaperAsWritten | paperoni/sources/scrapers/crossref.py:22 | as written, `getattr` on a JSON dict finds nothing, so a parsed paper never has a release |
| Crossref.EventDroppedAsWritten | paperoni/sources/scrapers/crossref.py:22-36 | a record with an event that parses with its release also parses as written, but as the same paper without the release |
| Crossref.EventDroppedExample | paperoni/sources/scrapers/crossref.py:22 | the record with event "Conf" starting 2020, title "T" and URL "u" parses with one release when the event is read as a key, and with none as written |
| Crossref.Query | paperoni/sources/scrapers/crossref.py:101-115 | papers are the parses of the entries in order, stopping at the first record that fails, whose error is reported |
| Crossref.Acquire | paperoni/sources/scrapers/crossref.py:118-127 | one Meta("crossref", now) comes first, then the query's papers in order |
| Crossref.AffiliationKeyRequired | paperoni/sources/scrapers/crossref.py:86 | an author without the affiliation key is rejected, while the same author with an empty list is "Ada Lovelace" with no affiliations |
| Jats.PubDateInfo | paperoni/sources/scrapers/refine.py:71-88 | a missing year is an error. Precision is day iff a day element is present, month iff only the month is, year iff neither is. Missing month and day are 1 |
| Jats.ArticleDate | paperoni/sources/scrapers/refine.py:61-88 | a string date wins; otherwise the first of ppub, pub, epub dates is resolved; no date at all leaves the date unbound |
| Jats.FindAff | paperoni/sources/scrapers/refine.py:91-94 | a found affiliation is the first in document order with the referenced id; not found means no affiliation has that id |
| Jats.AffiliationOf | paperoni/sources/scrapers/refine.py:90-101 | an error iff no affiliation has the referenced id; otherwise an institution with unknown category and no aliases, named by the first such affiliation's institution text (or its whole text when it has no institution element) with the leading digits stripped, so the name never starts with a digit |
| Jats.WithSurname | paperoni/sources/scrapers/refine.py:127-128 | at most as many as the contributors; every contributor with a surname is kept, and everything kept is such a contributor |
| Jats.SurnamedBefore | paperoni/sources/scrapers/refine.py:127-128 | counts at most the k contributors it looks at |
| Jats.WithSurnameCount | paperoni/sources/scrapers/refine.py:127-128 | one kept entry per contributor with a surname |
| Jats.WithSurnameAt | paperoni/sources/scrapers/refine.py:127-128 | contributor k, when it has a surname, is kept at the position given by the number of earlier contributors with a surname |
| Jats.WithSurnameOrder | paperoni/sources/scrapers/refine.py:127-128 | the kept contributors are exactly those with a surname, in document order |
| Jats.ContribAuthor | paperoni/sources/scrapers/refine.py:106-126 | the name is the given names and the surname joined by spaces, quality (0,). It succeeds iff every affiliation reference resolves; then affiliation i is exactly AffiliationOf of reference i |
| Jats.ArticleAuthors | paperoni/sources/scrapers/refine.py:105-129 | succeeds iff every contributor with a surname converts; then the authors are those conversions, one per contributor, in order; otherwise the error of the first contributor that fails |
| Jats.PaperFromJats | paperoni/sources/scrapers/refine.py:60-155 | a paper is produced iff the date resolves to a value, the title is present, every surnamed contributor converts, and the journal title and publisher are present. The paper has the article title, abstract "", the given links, quality (0,), the authors ArticleAuthors gives and one topic per keyword. It has one journal release named and series-named after the journal, with the publisher and the article's date |
| SdJson.Navigate | paperoni/sources/scrapers/refine.py:340-341 | an empty path returns the node itself; failures are lookup failures, never "no match" |
| SdJson.Find | paperoni/sources/scrapers/refine.py:337-356 | scalars yield []. A dict tagged with the tag yields exactly the one node reached by the index path and is not searched further. Failures come only from the index path |
| SdJson.FindAll | paperoni/sources/scrapers/refine.py:346-351 | a list's results are its children's results; failures come only from an index path |
| SdJson.FindOne | paperoni/sources/scrapers/refine.py:359-360 | fails with "no match" iff the search finds nothing; otherwise the first match |
| SdJson.FindReturnsTagged | paperoni/sources/scrapers/refine.py:337-356 | with no index path the search cannot fail and every match carries the tag |
| SdJson.FindAllReturnsTagged | paperoni/sources/scrapers/refine.py:346-351 | likewise for a list |
| SdJson.FindAllAppend | paperoni/sources/scrapers/refine.py:348-351 | the results over a concatenated list are the concatenated results, in order |
| SdJson.FindExact | paperoni/sources/scrapers/refine.py:337-356 | with no index path the search returns exactly the tagged dicts reachable through untagged dicts and lists, and none nested inside a tagged dict |
| SdJson.FindAllExact | paperoni/sources/scrapers/refine.py:346-351 | a list's matches are exactly the tagged dicts exposed in one of its children |
| SdJson.Follow | paperoni/sources/scrapers/refine.py:340-341 | the indexing loop equals Navigate |
| SdJson.SdFind | paperoni/sources/scrapers/refine.py:337-343 | the recursive method equals Find |
| SdJson.SdFindList | paperoni/sources/scrapers/refine.py:346-351 | the accumulating loop equals FindAll |
| SdJson.SdFindOne | paperoni/sources/scrapers/refine.py:359-360 | equals FindOne |
| Distinct.Dedup | paperoni/sources/scrapers/refine.py:566-571 | every element of the result comes from the input (nothing invented) |
| Distinct.DedupSpec | paperoni/sources/scrapers/refine.py:566-571 | the result has no duplicates, keeps every input element, and is never longer than the input |
| Distinct.DedupKeepsFirstOccurrenceOrder | paperoni/commands/searchutils.py:141 | the kept elements appear in the order of their first occurrence |
| Distinct.DedupOfDistinct | paperoni/sources/scrapers/refine.py:566-571 | a list without repeats is unchanged |
| Distinct.DedupLength | paperoni/commands/searchutils.py:141 | nothing is removed iff there were no repeats |
| Distinct.DedupFullIsDistinct | paperoni/commands/searchutils.py:141 | a full-length result means the input had no repeats |
| Distinct.DedupPrefix | paperoni/sources/scrapers/refine.py:587 | de-duplicating a + b starts with the de-duplicated a |
| Distinct.DedupAbsorbs | paperoni/sources/scrapers/refine.py:587 | de-duplicating an already de-duplicated prefix again changes nothing |
| Registry.Registry.constructor | paperoni/sources/scrapers/refine.py:45 | the registry starts empty |
| Registry.Registry.Register | paperoni/sources/scrapers/refine.py:48-51 | the pair is appended to its type's list, and every other type is unchanged |
| Registry.DecorateAppends | paperoni/sources/scrapers/refine.py:48-51 | one decorator appends its (priority, refiner) pair under its type, adds the type to the keys, and leaves every other type's list as it was |
| Registry.DefineRefiners | paperoni/sources/scrapers/refine.py:158-541 | running the decorators in file order on a fresh registry leaves it holding the default table |
| Registry.DefaultTableContents | paperoni/sources/scrapers/refine.py:158-541 | the default table has exactly the types doi, pmc, arxiv, openreview and pdf, with doi: IEEE 190, Crossref 100, bioRxiv 190, ScienceDirect 90, PDF-from-Crossref 6 in that order; pmc 110; arxiv 7; openreview 5; pdf 5 |
| Registry.LinkCandidates | paperoni/sources/scrapers/refine.py:549 | one candidate per registered (priority, refiner) pair of the link's type, in registration order |
| Registry.CandidatesComplete | paperoni/sources/scrapers/refine.py:546-550 | exactly one candidate per (link, refiner registered for its type), and every candidate is such a pair |
| Registry.InsertPermutes | paperoni/sources/scrapers/refine.py:551 | one insertion step adds exactly the inserted candidate |
| Registry.InsertSorted | paperoni/sources/scrapers/refine.py:551 | insertion keeps a descending list descending |
| Registry.SortDescSortsAndPermutes | paperoni/sources/scrapers/refine.py:551 | the sort yields non-increasing priorities and a permutation of its input |
| Registry.InsertKeepsTies | paperoni/sources/scrapers/refine.py:551 | insertion puts the new candidate before the existing ones of equal priority |
| Registry.SortKeepsTies | paperoni/sources/scrapers/refine.py:551 | the sort is stable: candidates of equal priority keep their input order |
| Registry.SortCandidates | paperoni/sources/scrapers/refine.py:551 | the insertion loop computes SortDesc |
| Registry.IterateRefiners | paperoni/sources/scrapers/refine.py:545-554 | yields the candidates with non-increasing priority, as a permutation of all (link, refiner) pairs; ties keep link order, then registration order |
| Registry.DoiCandidates | paperoni/sources/scrapers/refine.py:158-529 | a doi link gets the five doi refiners in registration order |
| Registry.DoiSort | paperoni/sources/scrapers/refine.py:551 | with the doi priorities the stable sort gives IEEE, bioRxiv, Crossref, ScienceDirect, PDF |
| Registry.DoiOrder | paperoni/sources/scrapers/refine.py:545-554 | a doi is tried by IEEE, then bioRxiv, Crossref, ScienceDirect and the PDF refiner |
| Refiners.OnlyIfAffiliations | paperoni/sources/scrapers/refine.py:54-57 | the paper is returned iff it is present and some author has an affiliation |
| Refiners.RefineIeee | paperoni/sources/scrapers/refine.py:158-166 | declines any DOI outside 10.1109/, and declines without an API key or with an empty one; otherwise the reply's paper or its error |
| Refiners.LastPartsSpec | paperoni/sources/scrapers/refine.py:250-257 | the date loop raises exactly when some present field has an empty date-parts list; otherwise it leaves nothing when no field is present, and else the first row of the last present field |
| Refiners.SelectRefinerDateParts | paperoni/sources/scrapers/refine.py:246-257 | the loop computes RefinerDateParts: an event start is read first, otherwise every present field in turn |
| Refiners.RefinerReleases | paperoni/sources/scrapers/refine.py:246-283 | with an event start the release is the scraper's for that start; otherwise a present field with empty date-parts is an error, and with none the release is the scraper's for the last present field |
| Refiners.StrictAuthor | paperoni/sources/scrapers/refine.py:288-306 | a missing given or family key is an error; otherwise as in the scraper, named given + " " + family |
| Refiners.CrossrefRefinerPaper | paperoni/sources/scrapers/refine.py:244-312 | a paper is produced iff the event (if any) yields its release, the title list is non-empty, the author list is present and every author has given and family names. A failing event date is the paper's error: an event with no date is the unbound error, and any present date field with empty date-parts raises. The paper has abstract "", no topics, quality (0,), the doi link and the first title, one author per raw author (its StrictAuthor result), and a release iff there is an event, dated from the last present date field |
| Refiners.RefineCrossref | paperoni/sources/scrapers/refine.py:232-243 | declines a DOI containing arXiv or a reply whose status is not "ok"; otherwise the message's paper |
| Refiners.RefineBiorxiv | paperoni/sources/scrapers/refine.py:315-334 | declines DOIs outside 10.1101/, and replies that are not ok or have no collection; otherwise the first JATS document's paper with the doi link |
| Refiners.RefineScienceDirect | paperoni/sources/scrapers/refine.py:363-368 | declines DOIs outside 10.1016/ |
| Refiners.RefinePubMedCentral | paperoni/sources/scrapers/refine.py:433-444 | succeeds iff the record reads as a JATS paper linked by its pmc id, and then is that paper; otherwise its error |
| Refiners.PdfAuthors | paperoni/sources/scrapers/refine.py:489-512 | one author per finding with its name, quality and found affiliations |
| Refiners.RefinePdf | paperoni/sources/scrapers/refine.py:467-517 | fails exactly when reading the full text or the institutions fails, with that error; otherwise produces a paper iff affiliations were found. The paper has the input title, abstract "", the link, no releases or topics, and quality (0,) |
| Refiners.ResolversAgreeOnOneField | paperoni/sources/scrapers/refine.py:250-257 | with at most one date field present, the refiner's last-wins and the scraper's first-wins resolvers agree |
| Refiners.ResolversDisagree | paperoni/sources/scrapers/refine.py:250-257 | with a print date and a creation date, the scraper selects the print-date holder and the refiner the creation-date holder. When both carry date-parts, the scraper's release is dated from the print date and the refiner's from the creation date; when either is empty, the refiner raises |
| Refine.KeptExact | paperoni/sources/scrapers/refine.py:556-563 | every produced paper is kept with its refiner, every kept pair was produced by that refiner, and errors and declines are skipped |
| Refine.ProducedBefore | paperoni/sources/scrapers/refine.py:556-563 | counts at most the k attempts it looks at |
| Refine.KeptCount | paperoni/sources/scrapers/refine.py:556-563 | one kept pair per attempt that produced a paper |
| Refine.KeptAt | paperoni/sources/scrapers/refine.py:556-563 | the paper of attempt k is kept at the position given by the number of earlier attempts that produced one |
| Refine.KeptOrder | paperoni/sources/scrapers/refine.py:556-563 | the kept pairs are exactly the produced papers, in candidate order |
| Refine.RunRefiners | paperoni/sources/scrapers/refine.py:556-563 | the try loop computes Successes |
| Refine.RefinePaper | paperoni/sources/scrapers/refine.py:565-593 | without merge, or with no results, the results are returned unchanged. With merge there is exactly one ("refine", merged) pair, with the first result's quality; the title is the input paper's once at least two results were merged |
| Refine.Unprocessed | paperoni/sources/scrapers/refine.py:638 | exactly the links whose tag has no record are kept |
| Refine.FreshBefore | paperoni/sources/scrapers/refine.py:638 | counts at most the k links it looks at |
| Refine.UnprocessedCount | paperoni/sources/scrapers/refine.py:638 | one kept link per link without a record |
| Refine.UnprocessedAt | paperoni/sources/scrapers/refine.py:638 | link k, when it has no record, is kept at the position given by the number of earlier links without one |
| Refine.UnprocessedOrder | paperoni/sources/scrapers/refine.py:638 | the kept links are exactly those without a record, in their own order |
| Refine.Marks | paperoni/sources/scrapers/refine.py:648-654 | one "refine" record per link, tagged type:link, with empty data and the clock reading |
| Refine.MarkLinks | paperoni/sources/scrapers/refine.py:648-654 | the loop computes Marks |
| Refine.AcquireOne | paperoni/sources/scrapers/refine.py:635-656 | one round stops exactly when the limit is reached, yields nothing for a paper whose links were all processed, and otherwise yields the merged result then one record per link and counts the paper |
| Refine.Acquire | paperoni/sources/scrapers/refine.py:613-658 | the loop over stored papers computes AcquireFrom: papers with no new link are skipped, the limit counts refined papers, and each batch is the merged results followed by the link records |
| Refine.AcquireMarksOnlyNewLinks | paperoni/sources/scrapers/refine.py:638-654 | every link record yielded is for a link not processed before, written by "refine" at the clock reading |
| Merge.Uniq | paperoni/sources/scrapers/refine.py:566-571 | equals Dedup: no duplicates, every entry kept, nothing invented |
| Merge.MergeResults | paperoni/sources/scrapers/refine.py:579-591 | the loop over the remaining results computes MergeAll |
| Merge.FirstNonEmpty | paperoni/sources/scrapers/refine.py:585 | empty iff all are empty; otherwise the first non-empty one |
| Merge.FirstAffiliated | paperoni/sources/scrapers/refine.py:582-586 | the first list with an affiliated author, or the last list when none has one |
| Merge.MergeQualityAndTitle | paperoni/sources/scrapers/refine.py:579-591 | the merged quality is the first result's; the title is the paper's once a second result was merged; a single result is returned as is |
| Merge.MergeAbstract | paperoni/sources/scrapers/refine.py:585 | the merged abstract is the first non-empty abstract of all results |
| Merge.MergeReleases | paperoni/sources/scrapers/refine.py:588 | the merged releases are the first non-empty release list of all results |
| Merge.MergeAuthors | paperoni/sources/scrapers/refine.py:582-586 | the merged authors are the first affiliated author list, else the last result's |
| Merge.MergeLinks | paperoni/sources/scrapers/refine.py:587 | the merged links are all results' links de-duplicated in first-occurrence order |
| Merge.MergeTopics | paperoni/sources/scrapers/refine.py:589 | the merged topics are all results' topics de-duplicated in first-occurrence order |
| Merge.MergedLinks | paperoni/sources/scrapers/refine.py:587 | the merged links have no duplicates, contain exactly the links of all results, and start with the first result's links |
| Text.StripLeadingDigits | paperoni/sources/scrapers/refine.py:96 | removes exactly the leading run of digits: the rest is a suffix not starting with a digit |
| Text.DecimalRoundTrip | paperoni/commands/searchutils.py:38-39 | reading back the decimal form of a non-negative number gives that number |
| Search.DateArg | paperoni/commands/searchutils.py:12-18 | absent stays absent; a string changes iff it is all digits (with at most one trailing newline), and such a string x becomes x + "-" + ending |
| Search.DateArgIdempotent | paperoni/commands/searchutils.py:12-18 | widening a bound a second time changes nothing |
| Search.Joined | paperoni/commands/searchutils.py:31 | absent stays absent, an empty list stays an empty list, and words are joined with spaces |
| Search.AuthorArg | paperoni/commands/searchutils.py:36-39 | an author becomes a number iff the joined text is all digits, and then is its value; otherwise it is the joined text |
| Search.AuthorIdRoundTrip | paperoni/commands/searchutils.py:36-39 | an author given as a non-negative id's decimal form is searched by that id |
| Search.YearRange | paperoni/commands/searchutils.py:70-78 | a year alone gives year-01-01 to year-12-31; an explicit start or end replaces the year's; no year and no start gives no start |
| Search.BaseSpec | paperoni/commands/searchutils.py:30-78 | title, words and institution are joined, keywords are left as given, the author is converted and the range is the widened bounds |
| Search.RoleSpecs | paperoni/commands/searchutils.py:98-108 | one spec per id, with that id as author and the role's period as range |
| Search.ResearcherSpecsShape | paperoni/commands/searchutils.py:97-108 | a researcher gives roles × ids specs, each copying the fields with an id as author and a role's period as range |
| Search.FanOutShape | paperoni/commands/searchutils.py:94-108 | the spec count is the sum over researchers of roles × ids; every spec copies the request fields with one researcher's id as author and one of its roles' period as range |
| Search.ResearcherSpecsAt | paperoni/commands/searchutils.py:97-108 | the spec for role j and id m is at position j × ids + m, roles outermost |
| Search.FanOutLength | paperoni/commands/searchutils.py:94-108 | the fan-out has the counted number of specs |
| Search.FanOutBlock | paperoni/commands/searchutils.py:94-108 | one researcher's specs form one block, after the specs of every earlier researcher |
| Search.FanOutAt | paperoni/commands/searchutils.py:94-108 | every (researcher, matching role, id) has its spec, at the count of the earlier researchers' specs plus j × ids + m |
| Search.ResearcherQueries | paperoni/commands/searchutils.py:96-107 | the loops over one researcher's matching roles and ids produce that researcher's specs, role by role, id by id |
| Search.BuildSpecs | paperoni/commands/searchutils.py:94-108 | the nested loops compute FanOut, with the counted number of specs |
| Search.SingleQuery | paperoni/commands/searchutils.py:110-120 | without researchers there is exactly one spec, with the request's author and (start, end) |
| Search.OrderBy | paperoni/commands/searchutils.py:125-130 | "D:desc" if recent, else "CC:desc" if cited, else none |
| Search.Dispatch | paperoni/commands/searchutils.py:122-140 | one call per spec in order, all with the same ordering, count and offset; the results are concatenated in call order |
| Search.LastWriteWins | paperoni/commands/searchutils.py:141 | every result Id has an entry, and each entry is the record of the Id's last occurrence |
| Search.IndexById | paperoni/commands/searchutils.py:141 | the keys are the Ids in first-occurrence order, and the entries are last-write-wins |
| Search.IndexSize | paperoni/commands/searchutils.py:141 | there are at most as many keys as results, exactly as many iff no Id repeats, and they are ordered by first occurrence |
| Search.ResortKey | paperoni/commands/searchutils.py:144-148 | a re-sort happens iff there was more than one spec and recent or cited is set; recent's key D takes precedence |
| Search.RunSearch | paperoni/commands/searchutils.py:94-148 | the calls carry the specs in order with one ordering; the index is built from their concatenated results; the re-sort is decided by the spec count |

## Left out

- Network fetches (`readpage`) become input values. This covers the Crossref
  reply, the bioRxiv reply, the JATS documents, and whole-refiner oracles for
  IEEE Xplore and ScienceDirect. Fetch errors are not modelled.
- Refiners.RefineIeee: only the DOI prefix and API-key guards are modelled.
  The parsing of the Xplore reply is an oracle, since it rests on
  `extract_date`, which is not part of this model.
- Refiners.RefineScienceDirect: only the DOI prefix guard is modelled. The
  redirect chain, the affiliation table and the author assembly are an
  oracle; the `_sd_find` search they rely on is modelled in SdJson.
- Refiners.RefinePdf: PDF text extraction, the institutions query and
  affiliation finding (`pdftools`) are one input function, which may fail.
  The database-backed `_institutions` cache and the
  `UniqueAuthor`/`UniqueInstitution` conversions are not modelled.
- Search.Dispatch: `QueryManager.query` cannot fail in the model, so a
  `QueryError` raised by a query, which aborts the whole search, is not
  modelled.
- Jats.ArticleDate: a `string-date` element is taken as an already extracted
  date (`extract_date` is not part of this model). Numeric JATS text is read
  as integers; non-numeric text, which makes `int(...)` raise, is not
  modelled.
- Dates.ResolveParts: the date is checked against the Gregorian calendar
  (years 1-9999), which is what `datetime(...)` accepts. The in-place `+=`
  on the shared `date_parts` list, and its aliasing with the payload, is
  modelled as a fresh value.
- Date holders are assumed to carry `date-parts`, and events are assumed to
  carry `name`. A missing key there (a KeyError) is not modelled.
- Registry.SortCandidates: Python's in-place timsort is modelled as a stable
  insertion sort on a sequence. Only the result order is captured, not the
  in-place update.
- The `ovld` dispatch of `_sd_find` is one function matching on a JSON
  datatype.
- `Refiner.query` (look up a paper by link in the database) is left out: it
  is database access. `Refiner.acquire` works on a list of stored papers.
- Refine.Acquire: `been_processed` is a fixed set of tags. Records the caller
  stores during the run are not seen again within the same run.
- `covguard`, `Doing`, `traceback` printing and `print` are left out: they
  have no effect on results.
- `QueryManager.query` is an input function, and `ResearchersFile.with_status`
  an input role filter. `Papers` and `Papers.sorted` are not part of this
  model: the re-sort is modelled as the choice of key only.
- `search` options come from the command line and the configuration; the API
  key is not modelled.

## Findings

| source | as written | input that shows it | evidently intended | confidence | as-written member | corrected member |
|---|---|---|---|---|---|---|
| paperoni/sources/scrapers/crossref.py:22 | `getattr(entry, "event", None)` on a record decoded from JSON always gives None, and so do the date fields at line 36 | any record with an `event` object, e.g. `{"event": {"name": "Conf", "start": {"date-parts": [[2020]]}}, "title": ["T"], "URL": "u"}`, gets no release | the event and date fields read as optional keys, so such a record gets its conference release | high, not executed | Crossref.EventDroppedExample | Crossref.ParsePaper |
