/** The `search` command: normalise the arguments, fan out one query per
    (researcher, matching role, id) or a single query, send each query with
    the same ordering, index the results by `Id` (last write wins), and
    decide whether the combined results must be re-sorted. */
module Search {
  import opened Wrappers
  import opened Text
  import opened Distinct

  /** `_date`: a bare run of digits (a year) is completed with `ending`;
      anything else, including a full date, is kept. */
  function DateArg(x: Option<string>, ending: string): (r: Option<string>)
    ensures r.None? <==> x.None?
    ensures x.Some? ==> (MatchesDigits(x.value) <==> r != x)
    ensures x.Some? && MatchesDigits(x.value) ==> r == Some(x.value + "-" + ending)
  {
    match x
    case None => None
    case Some(s) => if MatchesDigits(s) then Some(s + "-" + ending) else x
  }

  /** A completed bound is no longer a bare year, so completing it again changes nothing. */
  lemma DateArgIdempotent(x: Option<string>, ending: string)
    ensures DateArg(DateArg(x, ending), ending) == DateArg(x, ending)
  {
    if x.Some? && MatchesDigits(x.value) {
      var s := x.value + "-" + ending;
      assert s[|x.value|] == '-';
      if |s| > 1 && s[|s| - 1] == '\n' {
        assert |x.value| < |s| - 1;
        assert s[..|s| - 1][|x.value|] == '-';
      }
    }
  }

  /** A value of a multi-word option after `x and " ".join(x)`: absent, the
      empty list itself, the joined text, or (for the author only) a number. */
  datatype Arg = NoArg | EmptyList | Text(s: string) | Number(n: int)

  /** `x and " ".join(x)`. */
  function Joined(x: Option<seq<string>>): (r: Arg)
    ensures x.None? <==> r.NoArg?
    ensures x == Some([]) <==> r.EmptyList?
    ensures x.Some? && x.value != [] ==> r == Text(Join(" ", x.value))
  {
    match x
    case None => NoArg
    case Some(ws) => if ws == [] then EmptyList else Text(Join(" ", ws))
  }

  /** The author option: joined, and an all-digit result becomes an int. */
  function AuthorArg(x: Option<seq<string>>): (r: Arg)
    ensures r.Number? <==> Joined(x).Text? && MatchesDigits(Joined(x).s)
    ensures r.Number? ==> r.n == ParseDigits(Joined(x).s)
    ensures !r.Number? ==> r == Joined(x)
  {
    var a := Joined(x);
    if a.Text? && MatchesDigits(a.s) then Number(ParseDigits(a.s)) else a
  }

  /** An author given as the decimal form of a non-negative id is searched as that id. */
  lemma AuthorIdRoundTrip(n: nat)
    ensures AuthorArg(Some([DecimalString(n)])) == Number(n)
  {
    DecimalRoundTrip(n);
  }

  /** The command line, as the options are declared. */
  datatype Request = Request(
    title: Option<seq<string>>,
    author: Option<seq<string>>,
    words: Option<seq<string>>,
    keywords: Option<seq<string>>,
    institution: Option<seq<string>>,
    year: Option<int>,
    start: Option<string>,
    end: Option<string>,
    recent: bool,
    cited: bool,
    limit: int,
    offset: int)

  /** `default(str(year) if year is not None else None)`: an explicit bound wins. */
  function Bound(explicit: Option<string>, year: Option<int>, ending: string): Option<string>
  {
    DateArg(if explicit.Some? then explicit else if year.Some? then Some(DecimalString(year.value)) else None, ending)
  }

  /** A year alone spans the whole year; an explicit bound replaces the year's. */
  lemma {:induction false} YearRange(req: Request)
    ensures req.year.Some? && req.year.value >= 0 && req.start.None? ==>
      Bound(req.start, req.year, "01-01") == Some(DecimalString(req.year.value) + "-01-01")
    ensures req.year.Some? && req.year.value >= 0 && req.end.None? ==>
      Bound(req.end, req.year, "12-31") == Some(DecimalString(req.year.value) + "-12-31")
    ensures req.start.Some? ==> Bound(req.start, req.year, "01-01") == DateArg(req.start, "01-01")
    ensures req.end.Some? ==> Bound(req.end, req.year, "12-31") == DateArg(req.end, "12-31")
    ensures req.year.None? && req.start.None? ==> Bound(req.start, req.year, "01-01").None?
  {
    if req.year.Some? && req.year.value >= 0 {
      var y := DecimalString(req.year.value);
      assert MatchesDigits(y);
      if req.start.None? {
        assert Bound(req.start, req.year, "01-01") == DateArg(Some(y), "01-01");
        assert y + "-" + "01-01" == y + "-01-01";
      }
      if req.end.None? {
        assert Bound(req.end, req.year, "12-31") == DateArg(Some(y), "12-31");
        assert y + "-" + "12-31" == y + "-12-31";
      }
    }
  }

  /** A role of a researcher: the period it covers. */
  datatype Role = Role(begin: Option<string>, end: Option<string>)

  /** A researcher of the researchers file: the author ids to search and their roles. */
  datatype Researcher = Researcher(ids: seq<Arg>, roles: seq<Role>)

  /** One query. */
  datatype QuerySpec = QuerySpec(
    title: Arg,
    author: Arg,
    words: Arg,
    keywords: Option<seq<string>>,
    institution: Arg,
    daterange: (Option<string>, Option<string>))

  /** The fields every query takes from the command line. */
  function BaseSpec(req: Request): (q: QuerySpec)
    ensures q.title == Joined(req.title) && q.words == Joined(req.words) && q.institution == Joined(req.institution)
    ensures q.keywords == req.keywords
    ensures q.author == AuthorArg(req.author)
    ensures q.daterange == (Bound(req.start, req.year, "01-01"), Bound(req.end, req.year, "12-31"))
  {
    QuerySpec(Joined(req.title), AuthorArg(req.author), Joined(req.words), req.keywords, Joined(req.institution),
      (Bound(req.start, req.year, "01-01"), Bound(req.end, req.year, "12-31")))
  }

  /** `q` carries the command line's title, words, keywords and institution. */
  predicate CopiesBase(q: QuerySpec, base: QuerySpec)
  {
    q.title == base.title && q.words == base.words && q.keywords == base.keywords && q.institution == base.institution
  }

  /** The queries for one role: one per id. */
  function RoleSpecs(base: QuerySpec, role: Role, ids: seq<Arg>): (r: seq<QuerySpec>)
    ensures |r| == |ids|
    ensures forall m :: 0 <= m < |ids| ==> r[m] == base.(author := ids[m], daterange := (role.begin, role.end))
  {
    seq(|ids|, m requires 0 <= m < |ids| => base.(author := ids[m], daterange := (role.begin, role.end)))
  }

  /** The queries for one researcher: for each matching role, one per id. */
  function ResearcherSpecs(base: QuerySpec, roles: seq<Role>, ids: seq<Arg>): seq<QuerySpec>
  {
    if roles == [] then []
    else ResearcherSpecs(base, roles[..|roles| - 1], ids) + RoleSpecs(base, roles[|roles| - 1], ids)
  }

  /** The nested loops over researchers, their roles with the requested status, and their ids.
      `withStatus` stands for `researcher.with_status(*status)`. */
  function FanOut(base: QuerySpec, rs: seq<Researcher>, withStatus: Researcher -> seq<Role>): seq<QuerySpec>
  {
    if rs == [] then []
    else FanOut(base, rs[..|rs| - 1], withStatus) + ResearcherSpecs(base, withStatus(rs[|rs| - 1]), rs[|rs| - 1].ids)
  }

  /** The number of queries: over the researchers, matching roles times ids. */
  function SpecCount(rs: seq<Researcher>, withStatus: Researcher -> seq<Role>): nat
  {
    if rs == [] then 0
    else SpecCount(rs[..|rs| - 1], withStatus) + |withStatus(rs[|rs| - 1])| * |rs[|rs| - 1].ids|
  }

  lemma {:induction false} ResearcherSpecsShape(base: QuerySpec, roles: seq<Role>, ids: seq<Arg>)
    ensures |ResearcherSpecs(base, roles, ids)| == |roles| * |ids|
    ensures forall k :: 0 <= k < |ResearcherSpecs(base, roles, ids)| ==>
      CopiesBase(ResearcherSpecs(base, roles, ids)[k], base)
      && (exists j, m :: 0 <= j < |roles| && 0 <= m < |ids|
                         && ResearcherSpecs(base, roles, ids)[k].author == ids[m]
                         && ResearcherSpecs(base, roles, ids)[k].daterange == (roles[j].begin, roles[j].end))
  {
    if roles != [] {
      var init := roles[..|roles| - 1];
      var role := roles[|roles| - 1];
      ResearcherSpecsShape(base, init, ids);
      var prev := ResearcherSpecs(base, init, ids);
      var mine := RoleSpecs(base, role, ids);
      var all := ResearcherSpecs(base, roles, ids);
      assert all == prev + mine;
      assert |all| == |roles| * |ids| by {
        assert |roles| * |ids| == |init| * |ids| + |ids|;
      }
      forall k | 0 <= k < |all|
        ensures CopiesBase(all[k], base)
          && (exists j, m :: 0 <= j < |roles| && 0 <= m < |ids| && all[k].author == ids[m] && all[k].daterange == (roles[j].begin, roles[j].end))
      {
        if k < |prev| {
          assert all[k] == prev[k];
          var j, m :| 0 <= j < |init| && 0 <= m < |ids| && prev[k].author == ids[m] && prev[k].daterange == (init[j].begin, init[j].end);
          assert roles[j] == init[j];
        } else {
          var m := k - |prev|;
          assert all[k] == mine[m];
          assert roles[|roles| - 1] == role;
        }
      }
    }
  }

  lemma {:induction false} FanOutLength(base: QuerySpec, rs: seq<Researcher>, withStatus: Researcher -> seq<Role>)
    ensures |FanOut(base, rs, withStatus)| == SpecCount(rs, withStatus)
  {
    if rs != [] {
      var r := rs[|rs| - 1];
      FanOutLength(base, rs[..|rs| - 1], withStatus);
      ResearcherSpecsShape(base, withStatus(r), r.ids);
    }
  }

  /** One query per (researcher, matching role, id), each carrying the command
      line's other fields, the id as author and the role's period as range. */
  lemma {:induction false} FanOutShape(base: QuerySpec, rs: seq<Researcher>, withStatus: Researcher -> seq<Role>)
    ensures |FanOut(base, rs, withStatus)| == SpecCount(rs, withStatus)
    ensures forall k :: 0 <= k < |FanOut(base, rs, withStatus)| ==>
      CopiesBase(FanOut(base, rs, withStatus)[k], base)
      && (exists i, j, m :: 0 <= i < |rs| && 0 <= j < |withStatus(rs[i])| && 0 <= m < |rs[i].ids|
                            && FanOut(base, rs, withStatus)[k].author == rs[i].ids[m]
                            && FanOut(base, rs, withStatus)[k].daterange == (withStatus(rs[i])[j].begin, withStatus(rs[i])[j].end))
  {
    if rs != [] {
      var init := rs[..|rs| - 1];
      var r := rs[|rs| - 1];
      FanOutShape(base, init, withStatus);
      ResearcherSpecsShape(base, withStatus(r), r.ids);
      var prev := FanOut(base, init, withStatus);
      var mine := ResearcherSpecs(base, withStatus(r), r.ids);
      var all := FanOut(base, rs, withStatus);
      assert all == prev + mine;
      forall k | 0 <= k < |all|
        ensures CopiesBase(all[k], base)
          && (exists i, j, m :: 0 <= i < |rs| && 0 <= j < |withStatus(rs[i])| && 0 <= m < |rs[i].ids|
                                && all[k].author == rs[i].ids[m] && all[k].daterange == (withStatus(rs[i])[j].begin, withStatus(rs[i])[j].end))
      {
        if k < |prev| {
          assert all[k] == prev[k];
          var i, j, m :| 0 <= i < |init| && 0 <= j < |withStatus(init[i])| && 0 <= m < |init[i].ids|
            && prev[k].author == init[i].ids[m] && prev[k].daterange == (withStatus(init[i])[j].begin, withStatus(init[i])[j].end);
          assert rs[i] == init[i];
        } else {
          assert all[k] == mine[k - |prev|];
          var roles := withStatus(r);
          var j, m :| 0 <= j < |roles| && 0 <= m < |r.ids| && mine[k - |prev|].author == r.ids[m]
            && mine[k - |prev|].daterange == (roles[j].begin, roles[j].end);
          assert rs[|rs| - 1] == r;
        }
      }
    }
  }

  /** The query for role j and id m sits at position j * |ids| + m: roles
      form the outer loop and ids the inner one. */
  lemma {:induction false} ResearcherSpecsAt(base: QuerySpec, roles: seq<Role>, ids: seq<Arg>, j: nat, m: nat)
    requires j < |roles| && m < |ids|
    ensures j * |ids| + m < |ResearcherSpecs(base, roles, ids)|
    ensures ResearcherSpecs(base, roles, ids)[j * |ids| + m] == base.(author := ids[m], daterange := (roles[j].begin, roles[j].end))
  {
    var init := roles[..|roles| - 1];
    var prev := ResearcherSpecs(base, init, ids);
    var all := ResearcherSpecs(base, roles, ids);
    assert all == prev + RoleSpecs(base, roles[|roles| - 1], ids);
    if j == |init| {
      ResearcherSpecsShape(base, init, ids);
    } else {
      ResearcherSpecsAt(base, init, ids, j, m);
      assert init[j] == roles[j];
      assert all[j * |ids| + m] == prev[j * |ids| + m];
    }
  }

  /** Adding a researcher leaves the earlier queries where they were. */
  lemma FanOutKeepsPrefix(base: QuerySpec, rs: seq<Researcher>, withStatus: Researcher -> seq<Role>, k: nat)
    requires rs != [] && k < |FanOut(base, rs[..|rs| - 1], withStatus)|
    ensures k < |FanOut(base, rs, withStatus)| && FanOut(base, rs, withStatus)[k] == FanOut(base, rs[..|rs| - 1], withStatus)[k]
  {
  }

  /** The queries of researcher i form one block, after the queries of all
      the researchers before it. */
  lemma {:induction false} FanOutBlock(base: QuerySpec, rs: seq<Researcher>, withStatus: Researcher -> seq<Role>, i: nat, p: nat)
    requires i < |rs| && p < |ResearcherSpecs(base, withStatus(rs[i]), rs[i].ids)|
    ensures SpecCount(rs[..i], withStatus) + p < |FanOut(base, rs, withStatus)|
    ensures FanOut(base, rs, withStatus)[SpecCount(rs[..i], withStatus) + p] == ResearcherSpecs(base, withStatus(rs[i]), rs[i].ids)[p]
  {
    var init := rs[..|rs| - 1];
    if i == |init| {
      assert rs[..i] == init;
      FanOutLength(base, init, withStatus);
    } else {
      assert init[i] == rs[i] && init[..i] == rs[..i];
      FanOutBlock(base, init, withStatus, i, p);
      FanOutKeepsPrefix(base, rs, withStatus, SpecCount(rs[..i], withStatus) + p);
    }
  }

  /** The query for researcher i, matching role j and id m comes after all
      the queries of the researchers before i, at offset j * |ids| + m. */
  lemma FanOutAt(base: QuerySpec, rs: seq<Researcher>, withStatus: Researcher -> seq<Role>, i: nat, j: nat, m: nat)
    requires i < |rs| && j < |withStatus(rs[i])| && m < |rs[i].ids|
    ensures SpecCount(rs[..i], withStatus) + j * |rs[i].ids| + m < |FanOut(base, rs, withStatus)|
    ensures FanOut(base, rs, withStatus)[SpecCount(rs[..i], withStatus) + j * |rs[i].ids| + m]
      == base.(author := rs[i].ids[m], daterange := (withStatus(rs[i])[j].begin, withStatus(rs[i])[j].end))
  {
    ResearcherSpecsAt(base, withStatus(rs[i]), rs[i].ids, j, m);
    FanOutBlock(base, rs, withStatus, i, j * |rs[i].ids| + m);
  }

  /** The two inner loops building `qs`, for one researcher: over the
      matching roles, then over the researcher's ids. */
  method ResearcherQueries(base: QuerySpec, roles: seq<Role>, ids: seq<Arg>) returns (qs: seq<QuerySpec>)
    ensures qs == ResearcherSpecs(base, roles, ids)
  {
    qs := [];
    for j := 0 to |roles|
      invariant qs == ResearcherSpecs(base, roles[..j], ids)
    {
      assert roles[..j + 1][..j] == roles[..j];
      for m := 0 to |ids|
        invariant qs == ResearcherSpecs(base, roles[..j], ids) + RoleSpecs(base, roles[j], ids[..m])
      {
        assert RoleSpecs(base, roles[j], ids[..m + 1])
          == RoleSpecs(base, roles[j], ids[..m]) + [base.(author := ids[m], daterange := (roles[j].begin, roles[j].end))];
        qs := qs + [base.(author := ids[m], daterange := (roles[j].begin, roles[j].end))];
      }
      assert ids[..|ids|] == ids;
    }
    assert roles[..|roles|] == roles;
  }

  /** The nested loops building `qs` from the researchers file. */
  method BuildSpecs(base: QuerySpec, rs: seq<Researcher>, withStatus: Researcher -> seq<Role>) returns (qs: seq<QuerySpec>)
    ensures qs == FanOut(base, rs, withStatus)
    ensures |qs| == SpecCount(rs, withStatus)
  {
    qs := [];
    for i := 0 to |rs|
      invariant qs == FanOut(base, rs[..i], withStatus)
    {
      assert rs[..i + 1][..i] == rs[..i];
      var more := ResearcherQueries(base, withStatus(rs[i]), rs[i].ids);
      qs := qs + more;
    }
    assert rs[..|rs|] == rs;
    FanOutShape(base, rs, withStatus);
  }

  /** The queries `search` sends: the fan-out with a researchers file, else
      one query carrying the command line's author and date range. */
  function Specs(req: Request, researchers: Option<seq<Researcher>>, withStatus: Researcher -> seq<Role>): seq<QuerySpec>
  {
    if researchers.Some? then FanOut(BaseSpec(req), researchers.value, withStatus) else [BaseSpec(req)]
  }

  /** Without a researchers file there is exactly one query, with the
      command line's fields and `(start, end)`. */
  lemma SingleQuery(req: Request, withStatus: Researcher -> seq<Role>)
    ensures |Specs(req, None, withStatus)| == 1
    ensures Specs(req, None, withStatus)[0].author == AuthorArg(req.author)
    ensures Specs(req, None, withStatus)[0].daterange == (Bound(req.start, req.year, "01-01"), Bound(req.end, req.year, "12-31"))
  {
  }

  /** `recent` takes precedence over `cited`. */
  function OrderBy(recent: bool, cited: bool): (r: Option<string>)
    ensures recent ==> r == Some("D:desc")
    ensures !recent && cited ==> r == Some("CC:desc")
    ensures r.None? <==> !recent && !cited
  {
    if recent then Some("D:desc") else if cited then Some("CC:desc") else None
  }

  /** A result: its `Id` and the remaining attributes. */
  datatype Record = Record(id: int, attrs: seq<(string, string)>)

  /** One call of the query manager. */
  datatype Call = Call(spec: QuerySpec, orderby: Option<string>, count: int, offset: int)

  /** All results of the calls, in call order. */
  function Concat(calls: seq<Call>, remote: Call -> seq<Record>): seq<Record>
  {
    if calls == [] then [] else Concat(calls[..|calls| - 1], remote) + remote(calls[|calls| - 1])
  }

  /** The dispatch loop: every query goes out with the same ordering, count
      and offset, and the results are concatenated. `remote` stands for the
      query manager. */
  method Dispatch(qs: seq<QuerySpec>, req: Request, remote: Call -> seq<Record>)
    returns (calls: seq<Call>, papers: seq<Record>)
    ensures |calls| == |qs|
    ensures forall i :: 0 <= i < |qs| ==> calls[i] == Call(qs[i], OrderBy(req.recent, req.cited), req.limit, req.offset)
    ensures papers == Concat(calls, remote)
  {
    calls, papers := [], [];
    for i := 0 to |qs|
      invariant |calls| == i
      invariant forall k :: 0 <= k < i ==> calls[k] == Call(qs[k], OrderBy(req.recent, req.cited), req.limit, req.offset)
      invariant papers == Concat(calls, remote)
    {
      var orderby: Option<string>;
      if req.recent {
        orderby := Some("D:desc");
      } else if req.cited {
        orderby := Some("CC:desc");
      } else {
        orderby := None;
      }
      var call := Call(qs[i], orderby, req.limit, req.offset);
      assert (calls + [call])[..|calls|] == calls;
      papers := papers + remote(call);
      calls := calls + [call];
    }
  }

  function Ids(ps: seq<Record>): (r: seq<int>)
    ensures |r| == |ps| && forall i :: 0 <= i < |ps| ==> r[i] == ps[i].id
  {
    seq(|ps|, i requires 0 <= i < |ps| => ps[i].id)
  }

  /** `{p["Id"]: p for p in papers}` as a mapping: each id to its last record. */
  function LastById(ps: seq<Record>): map<int, Record>
  {
    if ps == [] then map[] else LastById(ps[..|ps| - 1])[ps[|ps| - 1].id := ps[|ps| - 1]]
  }

  /** Each id maps to the record of its last occurrence, and every id has an entry. */
  lemma {:induction false} LastWriteWins(ps: seq<Record>)
    ensures forall k :: k in LastById(ps) <==> k in Ids(ps)
    ensures forall k :: k in LastById(ps) ==>
      (exists i :: 0 <= i < |ps| && ps[i] == LastById(ps)[k] && ps[i].id == k && forall j :: i < j < |ps| ==> ps[j].id != k)
  {
    if ps != [] {
      var init := ps[..|ps| - 1];
      var last := ps[|ps| - 1];
      LastWriteWins(init);
      var t := LastById(ps);
      assert t == LastById(init)[last.id := last];
      assert Ids(ps) == Ids(init) + [last.id];
      forall k | k in t
        ensures exists i :: 0 <= i < |ps| && ps[i] == t[k] && ps[i].id == k && forall j :: i < j < |ps| ==> ps[j].id != k
      {
        if k == last.id {
          assert ps[|ps| - 1] == t[k];
        } else {
          var i :| 0 <= i < |init| && init[i] == LastById(init)[k] && init[i].id == k
            && forall j :: i < j < |init| ==> init[j].id != k;
          assert ps[i] == init[i];
          assert forall j :: i < j < |ps| - 1 ==> ps[j] == init[j];
        }
      }
    }
  }

  lemma IdsSnoc(ps: seq<Record>, i: nat)
    requires i < |ps|
    ensures Ids(ps[..i + 1]) == Ids(ps[..i]) + [ps[i].id]
  {
  }

  lemma DedupSnoc(s: seq<int>, x: int)
    ensures Dedup(s + [x]) == if x in Dedup(s) then Dedup(s) else Dedup(s) + [x]
  {
    assert (s + [x])[..|s|] == s;
  }

  /** The index's keys and its entries cover the same Ids. */
  lemma IndexKeysAgree(ps: seq<Record>)
    ensures forall k :: k in LastById(ps) <==> k in Dedup(Ids(ps))
  {
    LastWriteWins(ps);
    DedupSpec(Ids(ps));
    forall k
      ensures k in Ids(ps) <==> k in Dedup(Ids(ps))
    {
      if k in Ids(ps) {
        var j :| 0 <= j < |ps| && Ids(ps)[j] == k;
      }
      if k in Dedup(Ids(ps)) {
        var j :| 0 <= j < |Dedup(Ids(ps))| && Dedup(Ids(ps))[j] == k;
      }
    }
  }

  /** One round of the dict comprehension: the next record's Id is appended
      to the keys when new, and its entry is overwritten. */
  lemma IndexStep(papers: seq<Record>, i: nat, keys: seq<int>, table: map<int, Record>)
    requires i < |papers|
    requires keys == Dedup(Ids(papers[..i])) && table == LastById(papers[..i])
    ensures (if papers[i].id in table then keys else keys + [papers[i].id]) == Dedup(Ids(papers[..i + 1]))
    ensures table[papers[i].id := papers[i]] == LastById(papers[..i + 1])
  {
    var p := papers[i];
    var before := papers[..i];
    var after := papers[..i + 1];
    assert p.id in table <==> p.id in keys by {
      IndexKeysAgree(before);
    }
    assert Dedup(Ids(after)) == if p.id in keys then keys else keys + [p.id] by {
      IdsSnoc(papers, i);
      DedupSnoc(Ids(before), p.id);
    }
    assert after[..i] == before && after[i] == p;
  }

  /** The dict comprehension: keys in order of first occurrence, values by last write. */
  method IndexById(papers: seq<Record>) returns (keys: seq<int>, table: map<int, Record>)
    ensures keys == Dedup(Ids(papers))
    ensures table == LastById(papers)
  {
    keys, table := [], map[];
    for i := 0 to |papers|
      invariant keys == Dedup(Ids(papers[..i]))
      invariant table == LastById(papers[..i])
    {
      var p := papers[i];
      IndexStep(papers, i, keys, table);
      if p.id !in table {
        keys := keys + [p.id];
      }
      table := table[p.id := p];
    }
    assert papers[..|papers|] == papers;
  }

  /** The index has at most as many entries as there were results, exactly as
      many when no `Id` repeats, and keeps the keys in first-occurrence order. */
  lemma IndexSize(papers: seq<Record>)
    ensures |Dedup(Ids(papers))| <= |papers|
    ensures |Dedup(Ids(papers))| == |papers| <==> NoDuplicates(Ids(papers))
    ensures forall i, j :: 0 <= i < j < |Dedup(Ids(papers))| ==>
      FirstIndex(Ids(papers), Dedup(Ids(papers))[i]) < FirstIndex(Ids(papers), Dedup(Ids(papers))[j])
  {
    DedupSpec(Ids(papers));
    DedupLength(Ids(papers));
    DedupKeepsFirstOccurrenceOrder(Ids(papers));
  }

  /** `papers.sorted(key, desc=True)` is applied only after several queries. */
  function ResortKey(queries: nat, recent: bool, cited: bool): (r: Option<string>)
    ensures r.Some? <==> queries > 1 && (recent || cited)
    ensures r.Some? ==> r.value == (if recent then "D" else "CC")
  {
    if queries > 1 then (if recent then Some("D") else if cited then Some("CC") else None) else None
  }

  /** What `search` computes: the calls made, the index keys and entries, and the re-sort key. */
  datatype Outcome = Outcome(calls: seq<Call>, keys: seq<int>, table: map<int, Record>, resort: Option<string>)

  /** `search`. */
  method RunSearch(req: Request, researchers: Option<seq<Researcher>>, withStatus: Researcher -> seq<Role>,
                   remote: Call -> seq<Record>) returns (out: Outcome)
    ensures |out.calls| == |Specs(req, researchers, withStatus)|
    ensures forall i :: 0 <= i < |out.calls| ==> out.calls[i].spec == Specs(req, researchers, withStatus)[i]
    ensures forall i :: 0 <= i < |out.calls| ==> out.calls[i].orderby == OrderBy(req.recent, req.cited)
    ensures out.keys == Dedup(Ids(Concat(out.calls, remote)))
    ensures out.table == LastById(Concat(out.calls, remote))
    ensures out.resort == ResortKey(|Specs(req, researchers, withStatus)|, req.recent, req.cited)
  {
    var base := QuerySpec(Joined(req.title), AuthorArg(req.author), Joined(req.words), req.keywords, Joined(req.institution),
      (Bound(req.start, req.year, "01-01"), Bound(req.end, req.year, "12-31")));
    var qs;
    if researchers.Some? {
      qs := BuildSpecs(base, researchers.value, withStatus);
    } else {
      qs := [base];
    }
    var calls, papers := Dispatch(qs, req, remote);
    var keys, table := IndexById(papers);
    var resort: Option<string> := None;
    if |qs| > 1 {
      if req.recent {
        resort := Some("D");
      } else if req.cited {
        resort := Some("CC");
      }
    }
    out := Outcome(calls, keys, table, resort);
  }
}
