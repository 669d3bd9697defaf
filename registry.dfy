/** The refiner registry and the order in which refiners are tried: every
    refiner registered for a link's type yields one candidate, and the
    candidates are sorted by decreasing priority with a stable sort. */
module Registry {
  import opened Model

  /** The refiners the registry knows, one per decorated function. */
  datatype RefinerId =
    | Ieee            // refine_doi_with_ieeexplore
    | CrossrefRefiner // refine_doi_with_crossref
    | Biorxiv         // refine_doi_with_biorxiv
    | ScienceDirect   // refine_doi_with_sciencedirect
    | PubMedCentral   // refine_with_pubmedcentral
    | ArxivPdf        // refine_with_arxiv
    | CrossrefPdf     // refine_with_pdf_url_from_crossref
    | OpenReviewPdf   // refine_with_openreview
    | PdfLink         // refine_with_pdf_link

  /** A registration: `(priority, fn)`. */
  type Entry = (int, RefinerId)

  /** `refiners.get(kind, [])`. */
  function Registered(table: map<string, seq<Entry>>, kind: string): seq<Entry>
  {
    if kind in table then table[kind] else []
  }

  /** The module-level `refiners` dictionary, filled by the `@refiner` decorator. */
  class Registry {
    var table: map<string, seq<Entry>>

    constructor ()
      ensures table == map[]
    {
      table := map[];
    }

    /** `refiners[type].append((priority, fn))`. */
    method Register(kind: string, priority: int, id: RefinerId)
      modifies this
      ensures table == Decorate(old(table), kind, priority, id)
    {
      table := table[kind := Registered(table, kind) + [(priority, id)]];
    }
  }

  /** What one `@refiner(type, priority)` decorator does to the table. */
  function Decorate(table: map<string, seq<Entry>>, kind: string, priority: int, id: RefinerId): map<string, seq<Entry>>
  {
    table[kind := Registered(table, kind) + [(priority, id)]]
  }

  /** A decorator appends its registration under its type and changes no other type. */
  lemma DecorateAppends(table: map<string, seq<Entry>>, kind: string, priority: int, id: RefinerId)
    ensures Decorate(table, kind, priority, id).Keys == table.Keys + {kind}
    ensures Registered(Decorate(table, kind, priority, id), kind) == Registered(table, kind) + [(priority, id)]
    ensures forall k :: k != kind ==> Registered(Decorate(table, kind, priority, id), k) == Registered(table, k)
  {
  }

  /** The table after every decorator in the refiner module has run, in file order. */
  function DefaultTable(): map<string, seq<Entry>>
  {
    var t := Decorate(map[], "doi", 190, Ieee);
    var t := Decorate(t, "doi", 100, CrossrefRefiner);
    var t := Decorate(t, "doi", 190, Biorxiv);
    var t := Decorate(t, "doi", 90, ScienceDirect);
    var t := Decorate(t, "pmc", 110, PubMedCentral);
    var t := Decorate(t, "arxiv", 7, ArxivPdf);
    var t := Decorate(t, "doi", 6, CrossrefPdf);
    var t := Decorate(t, "openreview", 5, OpenReviewPdf);
    Decorate(t, "pdf", 5, PdfLink)
  }

  /** The registrations per link type once the module is loaded: five for
      DOIs, in decorator order, and one each for the other four types. */
  lemma DefaultTableContents()
    ensures DefaultTable().Keys == {"doi", "pmc", "arxiv", "openreview", "pdf"}
    ensures Registered(DefaultTable(), "doi")
      == [(190, Ieee), (100, CrossrefRefiner), (190, Biorxiv), (90, ScienceDirect), (6, CrossrefPdf)]
    ensures Registered(DefaultTable(), "pmc") == [(110, PubMedCentral)]
    ensures Registered(DefaultTable(), "arxiv") == [(7, ArxivPdf)]
    ensures Registered(DefaultTable(), "openreview") == [(5, OpenReviewPdf)]
    ensures Registered(DefaultTable(), "pdf") == [(5, PdfLink)]
  {
    var t1 := Decorate(map[], "doi", 190, Ieee);
    DecorateAppends(map[], "doi", 190, Ieee);
    var t2 := Decorate(t1, "doi", 100, CrossrefRefiner);
    DecorateAppends(t1, "doi", 100, CrossrefRefiner);
    var t3 := Decorate(t2, "doi", 190, Biorxiv);
    DecorateAppends(t2, "doi", 190, Biorxiv);
    var t4 := Decorate(t3, "doi", 90, ScienceDirect);
    DecorateAppends(t3, "doi", 90, ScienceDirect);
    assert t4.Keys == {"doi"};
    var t5 := Decorate(t4, "pmc", 110, PubMedCentral);
    DecorateAppends(t4, "pmc", 110, PubMedCentral);
    var t6 := Decorate(t5, "arxiv", 7, ArxivPdf);
    DecorateAppends(t5, "arxiv", 7, ArxivPdf);
    var t7 := Decorate(t6, "doi", 6, CrossrefPdf);
    DecorateAppends(t6, "doi", 6, CrossrefPdf);
    var t8 := Decorate(t7, "openreview", 5, OpenReviewPdf);
    DecorateAppends(t7, "openreview", 5, OpenReviewPdf);
    var t9 := Decorate(t8, "pdf", 5, PdfLink);
    DecorateAppends(t8, "pdf", 5, PdfLink);
    assert DefaultTable() == t9;
  }

  /** Runs the decorators in the order they appear in the refiner module. */
  method DefineRefiners() returns (reg: Registry)
    ensures fresh(reg)
    ensures reg.table == DefaultTable()
  {
    reg := new Registry();
    reg.Register("doi", 190, Ieee);
    reg.Register("doi", 100, CrossrefRefiner);
    reg.Register("doi", 190, Biorxiv);
    reg.Register("doi", 90, ScienceDirect);
    reg.Register("pmc", 110, PubMedCentral);
    reg.Register("arxiv", 7, ArxivPdf);
    reg.Register("doi", 6, CrossrefPdf);
    reg.Register("openreview", 5, OpenReviewPdf);
    reg.Register("pdf", 5, PdfLink);
  }

  /** One `(priority, link, refiner)` triple of `_iterate_refiners`. */
  datatype Candidate = Candidate(priority: int, link: Link, refiner: RefinerId)

  /** The triples contributed by one link, in registration order. */
  function LinkCandidates(entries: seq<Entry>, link: Link): (r: seq<Candidate>)
    ensures |r| == |entries|
    ensures forall j :: 0 <= j < |entries| ==> r[j] == Candidate(entries[j].0, link, entries[j].1)
  {
    seq(|entries|, j requires 0 <= j < |entries| => Candidate(entries[j].0, link, entries[j].1))
  }

  /** The list `_iterate_refiners` extends, link after link, before sorting. */
  function Candidates(table: map<string, seq<Entry>>, links: seq<Link>): seq<Candidate>
  {
    if links == [] then []
    else Candidates(table, links[..|links| - 1]) + LinkCandidates(Registered(table, links[|links| - 1].kind), links[|links| - 1])
  }

  /** The number of registrations over all the links' types. */
  function CandidateCount(table: map<string, seq<Entry>>, links: seq<Link>): nat
  {
    if links == [] then 0
    else CandidateCount(table, links[..|links| - 1]) + |Registered(table, links[|links| - 1].kind)|
  }

  /** One candidate per (link, registration for the link's type), and nothing else. */
  lemma {:induction false} CandidatesComplete(table: map<string, seq<Entry>>, links: seq<Link>)
    ensures |Candidates(table, links)| == CandidateCount(table, links)
    ensures forall i, j :: 0 <= i < |links| && 0 <= j < |Registered(table, links[i].kind)| ==>
      Candidate(Registered(table, links[i].kind)[j].0, links[i], Registered(table, links[i].kind)[j].1) in Candidates(table, links)
    ensures forall k :: 0 <= k < |Candidates(table, links)| ==>
      exists i :: (0 <= i < |links| && Candidates(table, links)[k].link == links[i]
        && (Candidates(table, links)[k].priority, Candidates(table, links)[k].refiner) in Registered(table, links[i].kind))
  {
    CandidatesCounted(table, links);
    CandidatesCover(table, links);
    CandidatesSound(table, links);
  }

  lemma {:induction false} CandidatesCounted(table: map<string, seq<Entry>>, links: seq<Link>)
    ensures |Candidates(table, links)| == CandidateCount(table, links)
  {
    if links != [] {
      CandidatesCounted(table, links[..|links| - 1]);
    }
  }

  lemma {:induction false} CandidatesCover(table: map<string, seq<Entry>>, links: seq<Link>)
    ensures forall i, j :: 0 <= i < |links| && 0 <= j < |Registered(table, links[i].kind)| ==>
      Candidate(Registered(table, links[i].kind)[j].0, links[i], Registered(table, links[i].kind)[j].1) in Candidates(table, links)
  {
    if links != [] {
      var init := links[..|links| - 1];
      var last := links[|links| - 1];
      CandidatesCover(table, init);
      var prev := Candidates(table, init);
      var mine := LinkCandidates(Registered(table, last.kind), last);
      var all := Candidates(table, links);
      assert all == prev + mine;
      forall i, j | 0 <= i < |links| && 0 <= j < |Registered(table, links[i].kind)|
        ensures Candidate(Registered(table, links[i].kind)[j].0, links[i], Registered(table, links[i].kind)[j].1) in all
      {
        if i < |links| - 1 {
          assert links[i] == init[i];
        } else {
          assert mine[j] in all;
        }
      }
    }
  }

  lemma {:induction false} CandidatesSound(table: map<string, seq<Entry>>, links: seq<Link>)
    ensures forall k :: 0 <= k < |Candidates(table, links)| ==>
      exists i :: (0 <= i < |links| && Candidates(table, links)[k].link == links[i]
        && (Candidates(table, links)[k].priority, Candidates(table, links)[k].refiner) in Registered(table, links[i].kind))
  {
    if links == [] {
      assert Candidates(table, links) == [];
    } else {
      var init := links[..|links| - 1];
      var last := links[|links| - 1];
      CandidatesSound(table, init);
      var prev := Candidates(table, init);
      var mine := LinkCandidates(Registered(table, last.kind), last);
      var all := Candidates(table, links);
      assert all == prev + mine;
      forall k | 0 <= k < |all|
        ensures exists i :: (0 <= i < |links| && all[k].link == links[i]
          && (all[k].priority, all[k].refiner) in Registered(table, links[i].kind))
      {
        if k < |prev| {
          assert all[k] == prev[k];
          var i :| 0 <= i < |init| && prev[k].link == init[i]
            && (prev[k].priority, prev[k].refiner) in Registered(table, init[i].kind);
          assert init[i] == links[i];
        } else {
          var j := k - |prev|;
          assert all[k] == mine[j];
          assert Registered(table, last.kind)[j] == (all[k].priority, all[k].refiner);
          assert links[|links| - 1] == last;
        }
      }
    }
  }

  /** Non-increasing priority from left to right. */
  predicate SortedDesc(s: seq<Candidate>)
  {
    forall i, j :: 0 <= i < j < |s| ==> s[i].priority >= s[j].priority
  }

  /** The candidates of one priority, in the order they occur. */
  function WithPriority(s: seq<Candidate>, p: int): seq<Candidate>
  {
    if s == [] then []
    else (if s[0].priority == p then [s[0]] else []) + WithPriority(s[1..], p)
  }

  /** Places `x` before the first element whose priority does not exceed its own. */
  function Insert(x: Candidate, t: seq<Candidate>): seq<Candidate>
  {
    if t == [] || t[0].priority <= x.priority then [x] + t
    else [t[0]] + Insert(x, t[1..])
  }

  lemma {:induction false} InsertPermutes(x: Candidate, t: seq<Candidate>)
    ensures multiset(Insert(x, t)) == multiset(t) + multiset{x}
  {
    if t != [] && t[0].priority > x.priority {
      InsertPermutes(x, t[1..]);
      assert t == [t[0]] + t[1..];
    }
  }

  lemma {:induction false} InsertSorted(x: Candidate, t: seq<Candidate>)
    requires SortedDesc(t)
    ensures SortedDesc(Insert(x, t))
  {
    if t != [] && t[0].priority > x.priority {
      InsertSorted(x, t[1..]);
      var rest := Insert(x, t[1..]);
      InsertPermutes(x, t[1..]);
      forall i | 0 <= i < |rest|
        ensures rest[i].priority <= t[0].priority
      {
        assert rest[i] in multiset(rest);
        if rest[i] != x {
          assert rest[i] in multiset(t[1..]);
          assert rest[i] in t[1..];
        }
      }
      assert Insert(x, t) == [t[0]] + rest;
    }
  }

  /** `sort(reverse=True, key=priority)`, stable: built by inserting from the back,
      so that among equal priorities the earlier element stays first. */
  function SortDesc(s: seq<Candidate>): seq<Candidate>
  {
    if s == [] then [] else Insert(s[0], SortDesc(s[1..]))
  }

  /** The sorted list is in non-increasing priority and is a permutation of the input. */
  lemma {:induction false} SortDescSortsAndPermutes(s: seq<Candidate>)
    ensures SortedDesc(SortDesc(s))
    ensures multiset(SortDesc(s)) == multiset(s)
  {
    if s != [] {
      SortDescSortsAndPermutes(s[1..]);
      InsertSorted(s[0], SortDesc(s[1..]));
      InsertPermutes(s[0], SortDesc(s[1..]));
      assert s == [s[0]] + s[1..];
    }
  }

  lemma WithPriorityCons(h: Candidate, s: seq<Candidate>, p: int)
    ensures WithPriority([h] + s, p) == (if h.priority == p then [h] else []) + WithPriority(s, p)
  {
    assert ([h] + s)[1..] == s;
  }

  lemma {:induction false} InsertKeepsTies(x: Candidate, t: seq<Candidate>, p: int)
    ensures WithPriority(Insert(x, t), p) == (if x.priority == p then [x] else []) + WithPriority(t, p)
  {
    if t == [] || t[0].priority <= x.priority {
      WithPriorityCons(x, t, p);
    } else {
      var h, tail := t[0], t[1..];
      var rest := Insert(x, tail);
      assert t == [h] + tail;
      assert Insert(x, t) == [h] + rest;
      InsertKeepsTies(x, tail, p);
      WithPriorityCons(h, rest, p);
      WithPriorityCons(h, tail, p);
      if x.priority == p {
        assert h.priority != p;
        assert WithPriority(Insert(x, t), p) == WithPriority(rest, p) == [x] + WithPriority(tail, p);
        assert WithPriority(t, p) == WithPriority(tail, p);
      } else if h.priority == p {
        assert WithPriority(Insert(x, t), p) == [h] + WithPriority(tail, p) == WithPriority(t, p);
      } else {
        assert WithPriority(Insert(x, t), p) == WithPriority(tail, p) == WithPriority(t, p);
      }
    }
  }

  /** Stability: for every priority, the sorted list holds the same candidates
      in the same relative order as the input. */
  lemma {:induction false} SortKeepsTies(s: seq<Candidate>, p: int)
    ensures WithPriority(SortDesc(s), p) == WithPriority(s, p)
  {
    if s != [] {
      SortKeepsTies(s[1..], p);
      InsertKeepsTies(s[0], SortDesc(s[1..]), p);
    }
  }

  /** The sort `_iterate_refiners` runs on its list, as repeated insertion from the back. */
  method SortCandidates(s: seq<Candidate>) returns (sorted: seq<Candidate>)
    ensures sorted == SortDesc(s)
  {
    sorted := [];
    var k := |s|;
    while k > 0
      invariant 0 <= k <= |s|
      invariant sorted == SortDesc(s[k..])
    {
      k := k - 1;
      assert s[k..][1..] == s[k + 1..];
      sorted := Insert(s[k], sorted);
    }
  }

  /** `_iterate_refiners`: gather the triples link by link, then sort them. */
  method IterateRefiners(reg: Registry, links: seq<Link>) returns (order: seq<Candidate>)
    ensures order == SortDesc(Candidates(reg.table, links))
    ensures SortedDesc(order)
    ensures multiset(order) == multiset(Candidates(reg.table, links))
    ensures forall p :: WithPriority(order, p) == WithPriority(Candidates(reg.table, links), p)
  {
    var gathered: seq<Candidate> := [];
    for i := 0 to |links|
      invariant gathered == Candidates(reg.table, links[..i])
    {
      assert links[..i + 1][..i] == links[..i];
      gathered := gathered + LinkCandidates(Registered(reg.table, links[i].kind), links[i]);
    }
    assert links[..|links|] == links;
    order := SortCandidates(gathered);
    SortDescSortsAndPermutes(gathered);
    forall p
      ensures WithPriority(order, p) == WithPriority(Candidates(reg.table, links), p)
    {
      SortKeepsTies(gathered, p);
    }
  }

  /** The five triples a DOI link contributes, in registration order. */
  lemma DoiCandidates(l: Link)
    requires l.kind == "doi"
    ensures Candidates(DefaultTable(), [l]) == [Candidate(190, l, Ieee), Candidate(100, l, CrossrefRefiner),
      Candidate(190, l, Biorxiv), Candidate(90, l, ScienceDirect), Candidate(6, l, CrossrefPdf)]
  {
    DefaultTableContents();
    var e := Registered(DefaultTable(), "doi");
    assert e == [(190, Ieee), (100, CrossrefRefiner), (190, Biorxiv), (90, ScienceDirect), (6, CrossrefPdf)];
    var mine := LinkCandidates(e, l);
    assert Candidates(DefaultTable(), [l][..0]) == [];
    assert [l][|[l]| - 1] == l;
    assert Candidates(DefaultTable(), [l]) == Candidates(DefaultTable(), [l][..0]) + mine;
    assert mine[0] == Candidate(190, l, Ieee) && mine[1] == Candidate(100, l, CrossrefRefiner);
    assert mine[2] == Candidate(190, l, Biorxiv) && mine[3] == Candidate(90, l, ScienceDirect);
    assert mine[4] == Candidate(6, l, CrossrefPdf);
  }

  /** Sorting the DOI triples: bioRxiv overtakes Crossref, IEEE stays ahead of bioRxiv. */
  lemma {:induction false} DoiSort(ieee: Candidate, cr: Candidate, bio: Candidate, sd: Candidate, pdf: Candidate)
    requires ieee.priority == 190 && cr.priority == 100 && bio.priority == 190 && sd.priority == 90 && pdf.priority == 6
    ensures SortDesc([ieee, cr, bio, sd, pdf]) == [ieee, bio, cr, sd, pdf]
  {
    assert [pdf][1..] == [];
    assert SortDesc([pdf]) == [pdf];
    assert [sd, pdf][1..] == [pdf];
    assert SortDesc([sd, pdf]) == Insert(sd, [pdf]) == [sd, pdf];
    assert [bio, sd, pdf][1..] == [sd, pdf];
    assert SortDesc([bio, sd, pdf]) == Insert(bio, [sd, pdf]) == [bio, sd, pdf];
    assert [cr, bio, sd, pdf][1..] == [bio, sd, pdf];
    assert [bio, sd, pdf][1..] == [sd, pdf];
    assert Insert(cr, [sd, pdf]) == [cr, sd, pdf];
    assert SortDesc([cr, bio, sd, pdf]) == Insert(cr, [bio, sd, pdf]) == [bio, cr, sd, pdf];
    assert [ieee, cr, bio, sd, pdf][1..] == [cr, bio, sd, pdf];
    assert SortDesc([ieee, cr, bio, sd, pdf]) == Insert(ieee, [bio, cr, sd, pdf]);
  }

  /** For a single DOI link the refiners run as IEEE, bioRxiv (both 190, in
      registration order), Crossref (100), ScienceDirect (90), then the PDF
      link found through Crossref (6). */
  lemma DoiOrder(doi: string)
    ensures SortDesc(Candidates(DefaultTable(), [Link("doi", doi)])) == [
      Candidate(190, Link("doi", doi), Ieee),
      Candidate(190, Link("doi", doi), Biorxiv),
      Candidate(100, Link("doi", doi), CrossrefRefiner),
      Candidate(90, Link("doi", doi), ScienceDirect),
      Candidate(6, Link("doi", doi), CrossrefPdf)]
  {
    var l := Link("doi", doi);
    DoiCandidates(l);
    DoiSort(Candidate(190, l, Ieee), Candidate(100, l, CrossrefRefiner), Candidate(190, l, Biorxiv),
      Candidate(90, l, ScienceDirect), Candidate(6, l, CrossrefPdf));
  }
}
