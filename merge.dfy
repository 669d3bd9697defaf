/** Merging the papers several refiners produced into one: title from the
    original paper, quality from the first result, the first non-empty
    abstract and releases, the first affiliated author list, and links and
    topics pooled without repeats. */
module Merge {
  import opened Model
  import opened Distinct

  /** `uniq`: append each entry not seen yet. */
  method Uniq<T(==)>(entries: seq<T>) returns (rval: seq<T>)
    ensures rval == Dedup(entries)
    ensures NoDuplicates(rval)
    ensures forall i :: 0 <= i < |entries| ==> entries[i] in rval
    ensures forall i :: 0 <= i < |rval| ==> rval[i] in entries
  {
    rval := [];
    for i := 0 to |entries|
      invariant rval == Dedup(entries[..i])
    {
      assert entries[..i + 1][..i] == entries[..i];
      if entries[i] !in rval {
        rval := rval + [entries[i]];
      }
    }
    assert entries[..|entries|] == entries;
    DedupSpec(entries);
  }

  /** One round of the merge loop: `merged` combined with the next `result`. */
  function MergeStep(title: string, merged: Paper, result: Paper): Paper
  {
    Paper(
      title,
      if merged.abstractText != "" then merged.abstractText else result.abstractText,
      if HasAffiliations(merged.authors) then merged.authors else result.authors,
      Dedup(merged.links + result.links),
      Dedup(merged.topics + result.topics),
      if merged.releases != [] then merged.releases else result.releases,
      merged.quality)
  }

  /** The merge loop over the remaining results, left to right. */
  function MergeAll(title: string, merged: Paper, rest: seq<Paper>): Paper
    decreases rest
  {
    if rest == [] then merged else MergeAll(title, MergeStep(title, merged, rest[0]), rest[1..])
  }

  /** The merge loop of `refine`, with `uniq` for links and topics. */
  method MergeResults(title: string, first: Paper, rest: seq<Paper>) returns (merged: Paper)
    ensures merged == MergeAll(title, first, rest)
  {
    merged := first;
    for i := 0 to |rest|
      invariant MergeAll(title, first, rest) == MergeAll(title, merged, rest[i..])
    {
      assert rest[i..][1..] == rest[i + 1..];
      var result := rest[i];
      var links := Uniq(merged.links + result.links);
      var topics := Uniq(merged.topics + result.topics);
      merged := Paper(
        title,
        if merged.abstractText != "" then merged.abstractText else result.abstractText,
        if HasAffiliations(merged.authors) then merged.authors else result.authors,
        links,
        topics,
        if merged.releases != [] then merged.releases else result.releases,
        merged.quality);
    }
  }

  /** The first non-empty sequence, or the empty one when all are empty. */
  function FirstNonEmpty<T>(ss: seq<seq<T>>): (r: seq<T>)
    ensures r == [] <==> forall i :: 0 <= i < |ss| ==> ss[i] == []
    ensures forall k :: 0 <= k < |ss| && ss[k] != [] && (forall i :: 0 <= i < k ==> ss[i] == []) ==> r == ss[k]
  {
    if ss == [] then []
    else if ss[0] != [] then ss[0]
    else
      assert forall k :: 1 <= k < |ss| ==> ss[k] == ss[1..][k - 1];
      FirstNonEmpty(ss[1..])
  }

  /** The first author list that has an affiliation, or the last list when none has. */
  function FirstAffiliated(lists: seq<seq<PaperAuthor>>): (r: seq<PaperAuthor>)
    requires lists != []
    ensures (forall i :: 0 <= i < |lists| ==> !HasAffiliations(lists[i])) ==> r == lists[|lists| - 1]
    ensures forall k :: 0 <= k < |lists| && HasAffiliations(lists[k]) && (forall i :: 0 <= i < k ==> !HasAffiliations(lists[i])) ==> r == lists[k]
  {
    if |lists| == 1 || HasAffiliations(lists[0]) then lists[0]
    else
      assert forall k :: 1 <= k < |lists| ==> lists[k] == lists[1..][k - 1];
      FirstAffiliated(lists[1..])
  }

  function Abstracts(ps: seq<Paper>): (r: seq<string>)
    ensures |r| == |ps| && forall i :: 0 <= i < |ps| ==> r[i] == ps[i].abstractText
  {
    seq(|ps|, i requires 0 <= i < |ps| => ps[i].abstractText)
  }

  function ReleaseLists(ps: seq<Paper>): (r: seq<seq<Release>>)
    ensures |r| == |ps| && forall i :: 0 <= i < |ps| ==> r[i] == ps[i].releases
  {
    seq(|ps|, i requires 0 <= i < |ps| => ps[i].releases)
  }

  function AuthorLists(ps: seq<Paper>): (r: seq<seq<PaperAuthor>>)
    ensures |r| == |ps| && forall i :: 0 <= i < |ps| ==> r[i] == ps[i].authors
  {
    seq(|ps|, i requires 0 <= i < |ps| => ps[i].authors)
  }

  /** Every result's links, in result order. */
  function AllLinks(ps: seq<Paper>): seq<Link>
  {
    if ps == [] then [] else ps[0].links + AllLinks(ps[1..])
  }

  /** Every result's topics, in result order. */
  function AllTopics(ps: seq<Paper>): seq<Topic>
  {
    if ps == [] then [] else ps[0].topics + AllTopics(ps[1..])
  }

  /** The merged quality is the first result's, and the merged title is the
      original paper's once a second result was merged. */
  lemma {:induction false} MergeQualityAndTitle(title: string, first: Paper, rest: seq<Paper>)
    ensures MergeAll(title, first, rest).quality == first.quality
    ensures rest != [] ==> MergeAll(title, first, rest).title == title
    ensures rest == [] ==> MergeAll(title, first, rest) == first
    decreases rest
  {
    if rest != [] {
      MergeQualityAndTitle(title, MergeStep(title, first, rest[0]), rest[1..]);
    }
  }

  lemma ProjectionsCons(p: Paper, ps: seq<Paper>)
    ensures Abstracts([p] + ps) == [p.abstractText] + Abstracts(ps)
    ensures ReleaseLists([p] + ps) == [p.releases] + ReleaseLists(ps)
    ensures AuthorLists([p] + ps) == [p.authors] + AuthorLists(ps)
  {
  }

  lemma FirstNonEmptyCons<T>(x: seq<T>, xs: seq<seq<T>>)
    ensures FirstNonEmpty([x] + xs) == if x != [] then x else FirstNonEmpty(xs)
  {
    assert ([x] + xs)[1..] == xs;
  }

  lemma FirstAffiliatedCons(x: seq<PaperAuthor>, xs: seq<seq<PaperAuthor>>)
    requires xs != []
    ensures FirstAffiliated([x] + xs) == if HasAffiliations(x) then x else FirstAffiliated(xs)
  {
    assert ([x] + xs)[1..] == xs;
  }

  /** The merged abstract is the first non-empty abstract of all the results. */
  lemma {:induction false} MergeAbstract(title: string, first: Paper, rest: seq<Paper>)
    ensures MergeAll(title, first, rest).abstractText == FirstNonEmpty(Abstracts([first] + rest))
    decreases rest
  {
    ProjectionsCons(first, rest);
    if rest == [] {
      FirstNonEmptyCons(first.abstractText, []);
    } else {
      var m := MergeStep(title, first, rest[0]);
      var tail := Abstracts(rest[1..]);
      assert MergeAll(title, first, rest).abstractText == FirstNonEmpty([m.abstractText] + tail) by {
        MergeAbstract(title, m, rest[1..]);
        ProjectionsCons(m, rest[1..]);
      }
      assert Abstracts(rest) == [rest[0].abstractText] + tail by {
        assert rest == [rest[0]] + rest[1..];
        ProjectionsCons(rest[0], rest[1..]);
      }
      FirstNonEmptyCons(m.abstractText, tail);
      FirstNonEmptyCons(first.abstractText, Abstracts(rest));
      FirstNonEmptyCons(rest[0].abstractText, tail);
    }
  }

  /** The merged releases are the first non-empty release list of all the results. */
  lemma {:induction false} MergeReleases(title: string, first: Paper, rest: seq<Paper>)
    ensures MergeAll(title, first, rest).releases == FirstNonEmpty(ReleaseLists([first] + rest))
    decreases rest
  {
    ProjectionsCons(first, rest);
    if rest == [] {
      FirstNonEmptyCons(first.releases, []);
    } else {
      var m := MergeStep(title, first, rest[0]);
      var tail := ReleaseLists(rest[1..]);
      assert MergeAll(title, first, rest).releases == FirstNonEmpty([m.releases] + tail) by {
        MergeReleases(title, m, rest[1..]);
        ProjectionsCons(m, rest[1..]);
      }
      assert ReleaseLists(rest) == [rest[0].releases] + tail by {
        assert rest == [rest[0]] + rest[1..];
        ProjectionsCons(rest[0], rest[1..]);
      }
      FirstNonEmptyCons(m.releases, tail);
      FirstNonEmptyCons(first.releases, ReleaseLists(rest));
      FirstNonEmptyCons(rest[0].releases, tail);
    }
  }

  /** The merged authors are those of the first result with an affiliated
      author, or the last result's when no result has one. */
  lemma {:induction false} MergeAuthors(title: string, first: Paper, rest: seq<Paper>)
    ensures MergeAll(title, first, rest).authors == FirstAffiliated(AuthorLists([first] + rest))
    decreases rest
  {
    ProjectionsCons(first, rest);
    if rest == [] {
      assert AuthorLists([first] + rest) == [first.authors];
    } else {
      var m := MergeStep(title, first, rest[0]);
      var tail := AuthorLists(rest[1..]);
      assert MergeAll(title, first, rest).authors == FirstAffiliated([m.authors] + tail) by {
        MergeAuthors(title, m, rest[1..]);
        ProjectionsCons(m, rest[1..]);
      }
      assert AuthorLists(rest) == [rest[0].authors] + tail by {
        assert rest == [rest[0]] + rest[1..];
        ProjectionsCons(rest[0], rest[1..]);
      }
      FirstAffiliatedCons(first.authors, AuthorLists(rest));
      if tail == [] {
        assert [m.authors] + tail == [m.authors];
        assert [rest[0].authors] + tail == [rest[0].authors];
      } else {
        FirstAffiliatedCons(m.authors, tail);
        FirstAffiliatedCons(rest[0].authors, tail);
      }
    }
  }

  lemma PoolsCons(p: Paper, ps: seq<Paper>)
    ensures AllLinks([p] + ps) == p.links + AllLinks(ps)
    ensures AllTopics([p] + ps) == p.topics + AllTopics(ps)
  {
    assert ([p] + ps)[1..] == ps;
  }

  lemma AppendAssoc<T>(a: seq<T>, b: seq<T>, c: seq<T>)
    ensures a + (b + c) == a + b + c
  {
  }

  /** The first round of the merge loop, then the rest. */
  lemma MergeAllUnfold(title: string, first: Paper, rest: seq<Paper>)
    requires rest != []
    ensures MergeAll(title, first, rest) == MergeAll(title, MergeStep(title, first, rest[0]), rest[1..])
  {
  }

  /** Once a second result is merged, the links are all the results' links with
      repeats removed, in order of first occurrence. */
  lemma {:induction false} MergeLinks(title: string, first: Paper, rest: seq<Paper>)
    requires rest != []
    ensures MergeAll(title, first, rest).links == Dedup(AllLinks([first] + rest))
    decreases rest
  {
    var m := MergeStep(title, first, rest[0]);
    var a := first.links + rest[0].links;
    var x := AllLinks(rest[1..]);
    PoolsCons(first, rest);
    PoolsCons(rest[0], rest[1..]);
    assert [rest[0]] + rest[1..] == rest;
    AppendAssoc(first.links, rest[0].links, x);
    MergeAllUnfold(title, first, rest);
    if rest[1..] == [] {
      assert x == [] && a + x == a;
    } else {
      MergeLinks(title, m, rest[1..]);
      PoolsCons(m, rest[1..]);
      DedupAbsorbs(a, x);
    }
  }

  /** Likewise for the topics. */
  lemma {:induction false} MergeTopics(title: string, first: Paper, rest: seq<Paper>)
    requires rest != []
    ensures MergeAll(title, first, rest).topics == Dedup(AllTopics([first] + rest))
    decreases rest
  {
    var m := MergeStep(title, first, rest[0]);
    var a := first.topics + rest[0].topics;
    var x := AllTopics(rest[1..]);
    PoolsCons(first, rest);
    PoolsCons(rest[0], rest[1..]);
    assert [rest[0]] + rest[1..] == rest;
    AppendAssoc(first.topics, rest[0].topics, x);
    MergeAllUnfold(title, first, rest);
    if rest[1..] == [] {
      assert x == [] && a + x == a;
    } else {
      MergeTopics(title, m, rest[1..]);
      PoolsCons(m, rest[1..]);
      DedupAbsorbs(a, x);
    }
  }

  /** What the pooling promises: no repeated link, every link of every result
      kept, nothing invented, and the first result's links (without repeats) first. */
  lemma MergedLinks(title: string, first: Paper, rest: seq<Paper>)
    requires rest != []
    ensures NoDuplicates(MergeAll(title, first, rest).links)
    ensures forall l :: l in AllLinks([first] + rest) <==> l in MergeAll(title, first, rest).links
    ensures |Dedup(first.links)| <= |MergeAll(title, first, rest).links|
    ensures MergeAll(title, first, rest).links[..|Dedup(first.links)|] == Dedup(first.links)
  {
    MergeLinks(title, first, rest);
    var ps := [first] + rest;
    PoolsCons(first, rest);
    DedupPrefix(first.links, AllLinks(rest));
    var all := AllLinks(ps);
    DedupSpec(all);
    forall l
      ensures l in all <==> l in Dedup(all)
    {
      if l in all {
        var i :| 0 <= i < |all| && all[i] == l;
      }
      if l in Dedup(all) {
        var i :| 0 <= i < |Dedup(all)| && Dedup(all)[i] == l;
      }
    }
  }
}
