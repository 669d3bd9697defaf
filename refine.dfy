/** The refiner driver: try every applicable refiner in priority order, keep
    the papers they produce (a refiner that raises is skipped), optionally
    merge them into one, and the acquisition loop that refines every stored
    paper whose links have not been processed yet. */
module Refine {
  import opened Wrappers
  import opened Model
  import opened Registry
  import opened Refiners
  import opened Merge

  /** Who produced a result: one refiner, or the merge (`"refine"`). */
  datatype Source = FromRefiner(id: RefinerId) | Merged

  /** What calling each candidate's refiner returned, in candidate order. */
  function Attempts(net: Network, paper: Paper, cands: seq<Candidate>): (r: seq<(RefinerId, Result<Option<Paper>, Failure>)>)
    ensures |r| == |cands| && forall i :: 0 <= i < |cands| ==> r[i] == (cands[i].refiner, Invoke(net, paper, cands[i]))
  {
    seq(|cands|, i requires 0 <= i < |cands| => (cands[i].refiner, Invoke(net, paper, cands[i])))
  }

  /** `_refine`'s filter: a refiner that declines or raises contributes nothing. */
  function Kept(attempts: seq<(RefinerId, Result<Option<Paper>, Failure>)>): seq<(RefinerId, Paper)>
  {
    if attempts == [] then []
    else
      var last := attempts[|attempts| - 1];
      Kept(attempts[..|attempts| - 1])
        + match last.1
          case Ok(Some(p)) => [(last.0, p)]
          case _ => []
  }

  /** Every produced paper is kept with its refiner, and nothing else is. */
  lemma {:induction false} KeptExact(attempts: seq<(RefinerId, Result<Option<Paper>, Failure>)>)
    ensures |Kept(attempts)| <= |attempts|
    ensures forall k :: 0 <= k < |attempts| && attempts[k].1.Ok? && attempts[k].1.value.Some? ==>
      (attempts[k].0, attempts[k].1.value.value) in Kept(attempts)
    ensures forall j :: 0 <= j < |Kept(attempts)| ==>
      exists k :: 0 <= k < |attempts| && attempts[k] == (Kept(attempts)[j].0, Ok(Some(Kept(attempts)[j].1)))
  {
    if attempts != [] {
      var init := attempts[..|attempts| - 1];
      KeptExact(init);
      var prev := Kept(init);
      var all := Kept(attempts);
      assert all[..|prev|] == prev;
      forall k | 0 <= k < |attempts| && attempts[k].1.Ok? && attempts[k].1.value.Some?
        ensures (attempts[k].0, attempts[k].1.value.value) in all
      {
        if k < |init| {
          assert attempts[k] == init[k];
          assert (attempts[k].0, attempts[k].1.value.value) in prev;
        } else {
          assert all[|all| - 1] == (attempts[k].0, attempts[k].1.value.value);
        }
      }
      forall j | 0 <= j < |all|
        ensures exists k :: 0 <= k < |attempts| && attempts[k] == (all[j].0, Ok(Some(all[j].1)))
      {
        if j < |prev| {
          assert all[j] == prev[j];
          var k :| 0 <= k < |init| && init[k] == (prev[j].0, Ok(Some(prev[j].1)));
          assert attempts[k] == init[k];
        } else {
          assert attempts[|attempts| - 1] == (all[j].0, Ok(Some(all[j].1)));
        }
      }
    }
  }

  /** How many of the first k attempts produced a paper. */
  function ProducedBefore(attempts: seq<(RefinerId, Result<Option<Paper>, Failure>)>, k: nat): (r: nat)
    requires k <= |attempts|
    ensures r <= k
  {
    if k == 0 then 0
    else ProducedBefore(attempts, k - 1) + (if attempts[k - 1].1.Ok? && attempts[k - 1].1.value.Some? then 1 else 0)
  }

  lemma {:induction false} ProducedBeforePrefix(a: seq<(RefinerId, Result<Option<Paper>, Failure>)>, b: seq<(RefinerId, Result<Option<Paper>, Failure>)>, k: nat)
    requires k <= |a| && k <= |b| && a[..k] == b[..k]
    ensures ProducedBefore(a, k) == ProducedBefore(b, k)
  {
    if k > 0 {
      assert a[..k - 1] == a[..k][..k - 1] && b[..k - 1] == b[..k][..k - 1];
      assert a[k - 1] == a[..k][k - 1] && b[k - 1] == b[..k][k - 1];
      ProducedBeforePrefix(a, b, k - 1);
    }
  }

  /** One kept pair per attempt that produced a paper. */
  lemma {:induction false} KeptCount(attempts: seq<(RefinerId, Result<Option<Paper>, Failure>)>)
    ensures |Kept(attempts)| == ProducedBefore(attempts, |attempts|)
  {
    if attempts != [] {
      var init := attempts[..|attempts| - 1];
      KeptCount(init);
      ProducedBeforePrefix(attempts, init, |init|);
    }
  }

  /** The paper of attempt k, when there is one, is kept after those of all
      earlier attempts. */
  lemma {:induction false} KeptAt(attempts: seq<(RefinerId, Result<Option<Paper>, Failure>)>, k: nat)
    requires k < |attempts| && attempts[k].1.Ok? && attempts[k].1.value.Some?
    ensures ProducedBefore(attempts, k) < |Kept(attempts)|
    ensures Kept(attempts)[ProducedBefore(attempts, k)] == (attempts[k].0, attempts[k].1.value.value)
  {
    var init := attempts[..|attempts| - 1];
    var prev := Kept(init);
    assert Kept(attempts)[..|prev|] == prev;
    if k == |init| {
      KeptCount(init);
      ProducedBeforePrefix(attempts, init, k);
    } else {
      KeptAt(init, k);
      assert attempts[..k] == init[..k];
      ProducedBeforePrefix(attempts, init, k);
      assert Kept(attempts)[ProducedBefore(attempts, k)] == prev[ProducedBefore(attempts, k)];
    }
  }

  /** The kept pairs are in attempt order: exactly one per produced paper,
      each after the papers of the attempts before it. */
  lemma KeptOrder(attempts: seq<(RefinerId, Result<Option<Paper>, Failure>)>)
    ensures |Kept(attempts)| == ProducedBefore(attempts, |attempts|)
    ensures forall k :: 0 <= k < |attempts| && attempts[k].1.Ok? && attempts[k].1.value.Some? ==>
      ProducedBefore(attempts, k) < |Kept(attempts)| &&
      Kept(attempts)[ProducedBefore(attempts, k)] == (attempts[k].0, attempts[k].1.value.value)
  {
    KeptCount(attempts);
    forall k | 0 <= k < |attempts| && attempts[k].1.Ok? && attempts[k].1.value.Some?
      ensures ProducedBefore(attempts, k) < |Kept(attempts)| &&
        Kept(attempts)[ProducedBefore(attempts, k)] == (attempts[k].0, attempts[k].1.value.value)
    {
      KeptAt(attempts, k);
    }
  }

  /** `_refine`: the papers the candidates produce, in candidate order. */
  function Successes(net: Network, paper: Paper, cands: seq<Candidate>): seq<(RefinerId, Paper)>
  {
    Kept(Attempts(net, paper, cands))
  }

  /** One more candidate adds its paper, if its refiner produced one. */
  lemma SuccessesStep(net: Network, paper: Paper, cands: seq<Candidate>, i: nat)
    requires i < |cands|
    ensures var outcome := Invoke(net, paper, cands[i]);
      Successes(net, paper, cands[..i + 1])
      == Successes(net, paper, cands[..i])
         + if outcome.Ok? && outcome.value.Some? then [(cands[i].refiner, outcome.value.value)] else []
  {
    var before := Attempts(net, paper, cands[..i]);
    var after := Attempts(net, paper, cands[..i + 1]);
    assert after[..i] == before;
  }

  /** The loop of `_refine`. */
  method RunRefiners(net: Network, paper: Paper, cands: seq<Candidate>) returns (results: seq<(RefinerId, Paper)>)
    ensures results == Successes(net, paper, cands)
  {
    results := [];
    for i := 0 to |cands|
      invariant results == Successes(net, paper, cands[..i])
    {
      var outcome := Invoke(net, paper, cands[i]);
      SuccessesStep(net, paper, cands, i);
      if outcome.Ok? && outcome.value.Some? {
        results := results + [(cands[i].refiner, outcome.value.value)];
      }
    }
    assert cands[..|cands|] == cands;
  }

  /** The links refined: the paper's own unless others are given. */
  function LinksToRefine(paper: Paper, links: Option<seq<Link>>): seq<Link>
  {
    if links.None? then paper.links else links.value
  }

  function Tagged(rs: seq<(RefinerId, Paper)>): (r: seq<(Source, Paper)>)
    ensures |r| == |rs| && forall i :: 0 <= i < |rs| ==> r[i] == (FromRefiner(rs[i].0), rs[i].1)
  {
    seq(|rs|, i requires 0 <= i < |rs| => (FromRefiner(rs[i].0), rs[i].1))
  }

  function Papers(rs: seq<(RefinerId, Paper)>): (r: seq<Paper>)
    ensures |r| == |rs| && forall i :: 0 <= i < |rs| ==> r[i] == rs[i].1
  {
    seq(|rs|, i requires 0 <= i < |rs| => rs[i].1)
  }

  /** The results of `_refine` for a paper. */
  function Results(table: map<string, seq<Entry>>, net: Network, paper: Paper, links: Option<seq<Link>>): seq<(RefinerId, Paper)>
  {
    Successes(net, paper, SortDesc(Candidates(table, LinksToRefine(paper, links))))
  }

  /** What `refine` returns: the results as they are, or one merged paper. */
  function RefineOutcome(table: map<string, seq<Entry>>, net: Network, paper: Paper, merge: bool, links: Option<seq<Link>>): seq<(Source, Paper)>
  {
    var rs := Results(table, net, paper, links);
    if !merge || rs == [] then Tagged(rs)
    else [(Merged, MergeAll(paper.title, rs[0].1, Papers(rs[1..])))]
  }

  /** `Refiner.refine`. */
  method RefinePaper(reg: Registry, net: Network, paper: Paper, merge: bool, links: Option<seq<Link>>)
    returns (out: seq<(Source, Paper)>)
    ensures out == RefineOutcome(reg.table, net, paper, merge, links)
    ensures var rs := Results(reg.table, net, paper, links);
      && (!merge || rs == [] ==> out == Tagged(rs))
      && (merge && rs != [] ==> |out| == 1 && out[0].0 == Merged && out[0].1.quality == rs[0].1.quality)
      && (merge && |rs| == 1 ==> out == [(Merged, rs[0].1)])
      && (merge && |rs| >= 2 ==> out[0].1.title == paper.title)
  {
    var order := IterateRefiners(reg, LinksToRefine(paper, links));
    var results := RunRefiners(net, paper, order);
    if !merge || results == [] {
      return Tagged(results);
    }
    var rest := Papers(results[1..]);
    var merged := MergeResults(paper.title, results[0].1, rest);
    MergeQualityAndTitle(paper.title, results[0].1, rest);
    out := [(Merged, merged)];
  }

  /** The bookkeeping record written for each refined link. */
  datatype ScraperData = ScraperData(scraper: string, tag: string, data: string, date: int)

  /** What `acquire` yields: merged papers and processed-link records. */
  datatype Emitted = RefinedPaper(paper: Paper) | Processed(record: ScraperData)

  /** `f"{l.type}:{l.link}"`. */
  function Tag(l: Link): string
  {
    l.kind + ":" + l.target
  }

  /** The links whose tag has no record yet; `processed` is the set of tags
      already stored for the "refine" scraper. */
  function Unprocessed(links: seq<Link>, processed: set<string>): (r: seq<Link>)
    ensures forall i :: 0 <= i < |r| ==> r[i] in links && Tag(r[i]) !in processed
    ensures forall i :: 0 <= i < |links| && Tag(links[i]) !in processed ==> links[i] in r
  {
    if links == [] then []
    else
      var rest := Unprocessed(links[1..], processed);
      assert forall i :: 1 <= i < |links| ==> links[i] == links[1..][i - 1];
      if Tag(links[0]) in processed then rest else [links[0]] + rest
  }

  /** How many of the first k links have no record yet. */
  function FreshBefore(links: seq<Link>, processed: set<string>, k: nat): (r: nat)
    requires k <= |links|
    ensures r <= k
  {
    if k == 0 then 0 else (if Tag(links[0]) in processed then 0 else 1) + FreshBefore(links[1..], processed, k - 1)
  }

  /** One kept link per link without a record. */
  lemma {:induction false} UnprocessedCount(links: seq<Link>, processed: set<string>)
    ensures |Unprocessed(links, processed)| == FreshBefore(links, processed, |links|)
  {
    if links != [] {
      UnprocessedCount(links[1..], processed);
    }
  }

  /** Link k, when it has no record, is kept after the earlier links kept. */
  lemma {:induction false} UnprocessedAt(links: seq<Link>, processed: set<string>, k: nat)
    requires k < |links| && Tag(links[k]) !in processed
    ensures FreshBefore(links, processed, k) < |Unprocessed(links, processed)|
    ensures Unprocessed(links, processed)[FreshBefore(links, processed, k)] == links[k]
  {
    var head := if Tag(links[0]) in processed then [] else [links[0]];
    assert Unprocessed(links, processed) == head + Unprocessed(links[1..], processed);
    if k > 0 {
      UnprocessedAt(links[1..], processed, k - 1);
      assert links[1..][k - 1] == links[k];
    }
  }

  /** The links are kept in their own order. */
  lemma UnprocessedOrder(links: seq<Link>, processed: set<string>)
    ensures |Unprocessed(links, processed)| == FreshBefore(links, processed, |links|)
    ensures forall k :: 0 <= k < |links| && Tag(links[k]) !in processed ==>
      FreshBefore(links, processed, k) < |Unprocessed(links, processed)| &&
      Unprocessed(links, processed)[FreshBefore(links, processed, k)] == links[k]
  {
    UnprocessedCount(links, processed);
    forall k | 0 <= k < |links| && Tag(links[k]) !in processed
      ensures FreshBefore(links, processed, k) < |Unprocessed(links, processed)| &&
        Unprocessed(links, processed)[FreshBefore(links, processed, k)] == links[k]
    {
      UnprocessedAt(links, processed, k);
    }
  }

  /** One processed-link record per link, stamped with the clock reading `now`. */
  function Marks(links: seq<Link>, now: int): (r: seq<Emitted>)
    ensures |r| == |links|
    ensures forall i :: 0 <= i < |links| ==> r[i] == Processed(ScraperData("refine", Tag(links[i]), "", now))
  {
    seq(|links|, i requires 0 <= i < |links| => Processed(ScraperData("refine", Tag(links[i]), "", now)))
  }

  /** The merged results of `refine`, unwrapped. */
  function Yielded(out: seq<(Source, Paper)>): (r: seq<Emitted>)
    ensures |r| == |out| && forall i :: 0 <= i < |out| ==> r[i] == RefinedPaper(out[i].1)
  {
    seq(|out|, i requires 0 <= i < |out| => RefinedPaper(out[i].1))
  }

  /** `limit and (i == limit)`: a limit of 0 or none never stops the loop. */
  predicate LimitReached(limit: Option<int>, count: int)
  {
    limit.Some? && limit.value != 0 && count == limit.value
  }

  /** What `acquire` yields for one paper with unprocessed links: the merged
      result, if any, then one record per link. */
  function Batch(table: map<string, seq<Entry>>, net: Network, paper: Paper, links: seq<Link>, now: int): seq<Emitted>
  {
    Yielded(RefineOutcome(table, net, paper, true, Some(links))) + Marks(links, now)
  }

  /** What `acquire` yields for the remaining stored papers, `count` papers having been refined. */
  function AcquireFrom(table: map<string, seq<Entry>>, net: Network, papers: seq<Paper>, processed: set<string>,
                       limit: Option<int>, now: int, count: int): seq<Emitted>
    decreases |papers|
  {
    if papers == [] || LimitReached(limit, count) then []
    else
      var links := Unprocessed(papers[0].links, processed);
      if links == [] then AcquireFrom(table, net, papers[1..], processed, limit, now, count)
      else Batch(table, net, papers[0], links, now) + AcquireFrom(table, net, papers[1..], processed, limit, now, count + 1)
  }

  /** The loop yielding one record per refined link. */
  method MarkLinks(links: seq<Link>, now: int) returns (marks: seq<Emitted>)
    ensures marks == Marks(links, now)
  {
    marks := [];
    for j := 0 to |links|
      invariant marks == Marks(links[..j], now)
    {
      marks := marks + [Processed(ScraperData("refine", Tag(links[j]), "", now))];
    }
    assert links[..|links|] == links;
  }

  /** One round of `acquire`'s loop, on the papers from position `k` on. */
  lemma AcquireFromStep(table: map<string, seq<Entry>>, net: Network, papers: seq<Paper>, k: nat, processed: set<string>,
                        limit: Option<int>, now: int, count: int)
    requires k < |papers|
    ensures var links := Unprocessed(papers[k].links, processed);
      AcquireFrom(table, net, papers[k..], processed, limit, now, count)
      == if LimitReached(limit, count) then []
         else if links == [] then AcquireFrom(table, net, papers[k + 1..], processed, limit, now, count)
         else Batch(table, net, papers[k], links, now) + AcquireFrom(table, net, papers[k + 1..], processed, limit, now, count + 1)
  {
    assert papers[k..][1..] == papers[k + 1..];
  }

  /** Once the limit is reached, `acquire` yields nothing more. */
  lemma AcquireStops(table: map<string, seq<Entry>>, net: Network, papers: seq<Paper>, k: nat, processed: set<string>,
                     limit: Option<int>, now: int, count: int)
    requires k < |papers| && LimitReached(limit, count)
    ensures AcquireFrom(table, net, papers[k..], processed, limit, now, count) == []
  {
  }

  /** Below the limit, one round of `acquire`'s loop yields the paper's batch
      (nothing when all its links were processed) and moves to the next paper. */
  lemma AcquireAdvances(table: map<string, seq<Entry>>, net: Network, papers: seq<Paper>, k: nat, processed: set<string>,
                        limit: Option<int>, now: int, count: int, batch: seq<Emitted>, next: int)
    requires k < |papers| && !LimitReached(limit, count)
    ensures var links := Unprocessed(papers[k].links, processed);
      (links == [] ==> batch == [] && next == count)
      && (links != [] ==> batch == Batch(table, net, papers[k], links, now) && next == count + 1)
      ==> AcquireFrom(table, net, papers[k..], processed, limit, now, count)
          == batch + AcquireFrom(table, net, papers[k + 1..], processed, limit, now, next)
  {
    AcquireFromStep(table, net, papers, k, processed, limit, now, count);
  }

  /** Regrouping a concatenation, kept apart from the proofs about `acquire`
      so that the solver does not unfold the yielded sequences to see it. */
  lemma Regroup<T>(done: seq<T>, batch: seq<T>, tail: seq<T>, rest: seq<T>, total: seq<T>)
    requires done + rest == total && rest == batch + tail
    ensures done + batch + tail == total
  {
    assert done + batch + tail == done + (batch + tail);
  }

  /** One round of `acquire`'s loop: stop at the limit, skip a paper whose
      links were all processed, otherwise refine it with merging and yield
      the result followed by one record per link. */
  method AcquireOne(reg: Registry, net: Network, paper: Paper, processed: set<string>, limit: Option<int>, now: int,
                    count: int)
    returns (batch: seq<Emitted>, stop: bool, next: int)
    ensures stop <==> LimitReached(limit, count)
    ensures var links := Unprocessed(paper.links, processed);
      && (stop ==> batch == [])
      && (!stop && links == [] ==> batch == [] && next == count)
      && (!stop && links != [] ==> batch == Batch(reg.table, net, paper, links, now) && next == count + 1)
  {
    batch, next := [], count;
    stop := LimitReached(limit, count);
    if stop {
      return;
    }
    var links := Unprocessed(paper.links, processed);
    if links != [] {
      var refined := RefinePaper(reg, net, paper, true, Some(links));
      var marks := MarkLinks(links, now);
      batch := Yielded(refined) + marks;
      next := count + 1;
    }
  }

  /** `Refiner.acquire`, over the stored papers. */
  method Acquire(reg: Registry, net: Network, papers: seq<Paper>, processed: set<string>, limit: Option<int>, now: int)
    returns (out: seq<Emitted>)
    ensures out == AcquireFrom(reg.table, net, papers, processed, limit, now, 0)
  {
    out := [];
    var count := 0;
    for k := 0 to |papers|
      invariant out + AcquireFrom(reg.table, net, papers[k..], processed, limit, now, count)
        == AcquireFrom(reg.table, net, papers, processed, limit, now, 0)
    {
      var batch, stop, next := AcquireOne(reg, net, papers[k], processed, limit, now, count);
      ghost var rest := AcquireFrom(reg.table, net, papers[k..], processed, limit, now, count);
      if stop {
        AcquireStops(reg.table, net, papers, k, processed, limit, now, count);
        Regroup(out, [], [], rest, AcquireFrom(reg.table, net, papers, processed, limit, now, 0));
        assert out + [] == out;
        return;
      }
      AcquireAdvances(reg.table, net, papers, k, processed, limit, now, count, batch, next);
      Regroup(out, batch, AcquireFrom(reg.table, net, papers[k + 1..], processed, limit, now, next), rest,
              AcquireFrom(reg.table, net, papers, processed, limit, now, 0));
      out := out + batch;
      count := next;
    }
    assert out + [] == out;
  }

  /** Every processed-link record `acquire` yields is for a link of a stored
      paper that had no record yet. */
  lemma {:induction false} AcquireMarksOnlyNewLinks(table: map<string, seq<Entry>>, net: Network, papers: seq<Paper>,
                                                    processed: set<string>, limit: Option<int>, now: int, count: int)
    ensures forall e :: e in AcquireFrom(table, net, papers, processed, limit, now, count) && e.Processed? ==>
      e.record.tag !in processed && e.record.scraper == "refine" && e.record.date == now
    decreases |papers|
  {
    if papers != [] && !LimitReached(limit, count) {
      var links := Unprocessed(papers[0].links, processed);
      if links == [] {
        AcquireMarksOnlyNewLinks(table, net, papers[1..], processed, limit, now, count);
      } else {
        AcquireMarksOnlyNewLinks(table, net, papers[1..], processed, limit, now, count + 1);
        var ys := Yielded(RefineOutcome(table, net, papers[0], true, Some(links)));
        var ms := Marks(links, now);
        forall e: Emitted | e in ys + ms && e.Processed?
          ensures e.record.tag !in processed && e.record.scraper == "refine" && e.record.date == now
        {
          assert e !in ys;
          var i :| 0 <= i < |ms| && ms[i] == e;
        }
      }
    }
  }
}
