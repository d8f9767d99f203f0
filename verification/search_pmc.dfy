/** `GET /api/search-pmc?sdg=…&keywords=…`: check the goal number, build
    the PMC search term from the goal's base query and the keywords, search
    for article ids, fetch their summaries and shape them into papers. */
module SearchPmc {
  import opened Common
  import opened JsText
  import opened Http

  const InvalidSdgMessage := "Provide a valid SDG number (1\U{2013}17)."
  const OpenAccessFilter := " AND open+access[filter]"
  const SearchFailedMessage := "PMC search request failed"
  const SummaryFailedMessage := "PMC summary request failed"
  const SearchPrefix := "PMC search failed: "
  const UnknownSearchError := "Unknown error searching PMC"
  const Unknown := "Unknown"

  /** `sdgParam ? parseInt(sdgParam, 10) : NaN`, with `None` for `NaN`. */
  function ParseSdg(param: Option<string>): Option<int> {
    if param.None? || param.value == "" then None else ParseIntPrefix(param.value)
  }

  /** `!(isNaN(sdg) || sdg < 1 || sdg > 17)`. */
  predicate SdgAccepted(sdg: Option<int>) {
    sdg.Some? && 1 <= sdg.value <= 17
  }

  /** `keywords?.trim() || ""`. */
  function Keywords(param: Option<string>): (k: string)
    ensures NoEdgeSpace(k)
    ensures param.Some? ==> k == Trim(param.value)
    ensures param.None? ==> k == ""
  {
    if param.None? then "" else Trim(param.value)
  }

  /** `keywords ? " AND (" + keywords + ")" : ""`. */
  function KeywordClause(keywords: string): string {
    if keywords == "" then "" else " AND (" + keywords + ")"
  }

  /** The E-utilities search term: the goal's base query, the keyword
      clause and the open-access filter. */
  function SearchTerm(base: string, keywords: string): string {
    base + KeywordClause(keywords) + OpenAccessFilter
  }

  /** The fields of an `esummary` record the route reads. */
  datatype Summary = Summary(
    title: string,
    sortFirstAuthor: Option<string>,
    authorNames: Option<seq<string>>,
    fullJournalName: Option<string>,
    pubDate: Option<string>)

  /** `v || fallback` for a string that may be missing. */
  function OrElse(v: Option<string>, fallback: string): (r: string)
    ensures v.Some? && v.value != "" ==> r == v.value
    ensures v.None? || v.value == "" ==> r == fallback
  {
    if v.Some? && v.value != "" then v.value else fallback
  }

  /** `s.authors?.map(a => a.name).join(", ") || s.sortfirstauthor || "Unknown"`. */
  function PaperAuthors(s: Summary): (a: string)
    ensures a != ""
    ensures s.authorNames.Some? && Join(s.authorNames.value, ", ") != "" ==> a == Join(s.authorNames.value, ", ")
    ensures (s.authorNames.None? || Join(s.authorNames.value, ", ") == "") ==>
      a == OrElse(s.sortFirstAuthor, Unknown)
  {
    var joined := if s.authorNames.Some? then Some(Join(s.authorNames.value, ", ")) else None;
    OrElse(joined, OrElse(s.sortFirstAuthor, Unknown))
  }

  /** The paper shown for one id and its summary. */
  function ShapePaper(id: string, s: Summary): (p: Paper)
    ensures p.pmcid == "PMC" + id && p.title == s.title
    ensures p.authors == PaperAuthors(s)
    ensures p.journal == OrElse(s.fullJournalName, Unknown) && p.date == OrElse(s.pubDate, Unknown)
    ensures p.authors != "" && p.journal != "" && p.date != ""
  {
    Paper("PMC" + id, s.title, PaperAuthors(s), OrElse(s.fullJournalName, Unknown), OrElse(s.pubDate, Unknown))
  }

  /** `ids.map(id => result[id] ? shape(id, result[id]) : null).filter(Boolean)`. */
  function ShapePapers(ids: seq<string>, result: map<string, Summary>): (ps: seq<Paper>)
    ensures |ps| <= |ids|
    ensures forall j :: 0 <= j < |ps| ==> ps[j].authors != "" && ps[j].journal != "" && ps[j].date != ""
  {
    if |ids| == 0 then []
    else
      (if ids[0] in result then [ShapePaper(ids[0], result[ids[0]])] else [])
      + ShapePapers(ids[1..], result)
  }

  /** The whole handler. `baseQuery` stands for the `SDG_QUERIES` table;
      `esearch` answers the id search for a term and `esummary` the
      summary request for a list of ids. */
  function Search(sdgParam: Option<string>, keywordsParam: Option<string>,
                  baseQuery: int -> string,
                  esearch: string -> Fetched<seq<string>>,
                  esummary: seq<string> -> Fetched<map<string, Summary>>): (o: Outcome)
    ensures o.response.status in {200, 400, 502}
    ensures !SdgAccepted(ParseSdg(sdgParam)) ==> o.response == Fail(400, InvalidSdgMessage) && o.calls == []
    ensures SdgAccepted(ParseSdg(sdgParam)) ==>
      1 <= |o.calls| <= 2
      && o.calls[0] == SearchIds(SearchTerm(baseQuery(ParseSdg(sdgParam).value), Keywords(keywordsParam)))
    ensures SdgAccepted(ParseSdg(sdgParam)) ==>
      var searched := esearch(SearchTerm(baseQuery(ParseSdg(sdgParam).value), Keywords(keywordsParam)));
      && (searched.Threw? ==>
            o.response == Fail(502, SearchPrefix + MessageOr(searched.error, UnknownSearchError)) && |o.calls| == 1)
      && (searched.NotOk? ==> o.response == Fail(502, SearchPrefix + SearchFailedMessage) && |o.calls| == 1)
      && (searched.Delivered? && |searched.value| > 0 ==>
            var ids := searched.value;
            && |o.calls| == 2 && o.calls[1] == FetchSummaries(ids)
            && (esummary(ids).Threw? ==>
                  o.response == Fail(502, SearchPrefix + MessageOr(esummary(ids).error, UnknownSearchError)))
            && (esummary(ids).NotOk? ==> o.response == Fail(502, SearchPrefix + SummaryFailedMessage))
            && (esummary(ids).Delivered? ==>
                  o.response == Response(200, PapersBody(ShapePapers(ids, esummary(ids).value)))))
    ensures o.response.status == 200 ==> o.response.body.PapersBody?
    ensures o.response.status == 502 ==> o.response.body.ErrorBody? && StartsWith(o.response.body.error, SearchPrefix)
    ensures NoModelCall(o.calls)
  {
    var sdg := ParseSdg(sdgParam);
    if !SdgAccepted(sdg) then Outcome(Fail(400, InvalidSdgMessage), [])
    else
      var term := SearchTerm(baseQuery(sdg.value), Keywords(keywordsParam));
      var searched := [SearchIds(term)];
      match esearch(term)
      case Threw(e) => Outcome(Fail(502, SearchPrefix + MessageOr(e, UnknownSearchError)), searched)
      case NotOk => Outcome(Fail(502, SearchPrefix + SearchFailedMessage), searched)
      case Delivered(ids) =>
        if |ids| == 0 then Outcome(Response(200, PapersBody([])), searched)
        else
          var calls := searched + [FetchSummaries(ids)];
          match esummary(ids)
          case Threw(e) => Outcome(Fail(502, SearchPrefix + MessageOr(e, UnknownSearchError)), calls)
          case NotOk => Outcome(Fail(502, SearchPrefix + SummaryFailedMessage), calls)
          case Delivered(result) => Outcome(Response(200, PapersBody(ShapePapers(ids, result))), calls)
  }

  // ---------------------------------------------------------------------
  // Properties

  /** A goal number written in decimal is accepted exactly when it lies
      in 1..17. */
  lemma SdgAcceptedIff(n: int)
    ensures SdgAccepted(ParseSdg(Some(IntToString(n)))) <==> 1 <= n <= 17
  {
    ParseIntRoundTrip(n);
  }

  /** A missing goal, or one with no leading digits, is refused. */
  lemma SdgMissingOrNotNumeric(param: Option<string>)
    requires param.Some? ==> ParseIntPrefix(param.value).None?
    ensures !SdgAccepted(ParseSdg(param))
  {
  }

  /** The search term is the base query, then the clause for the trimmed
      keywords when they are not blank, then the open-access filter. */
  lemma SearchTermParts(base: string, keywordsParam: Option<string>)
    ensures var k := Keywords(keywordsParam);
      && (k == "" ==> SearchTerm(base, k) == base + OpenAccessFilter)
      && (k != "" ==> SearchTerm(base, k) == base + " AND (" + k + ")" + OpenAccessFilter)
      && StartsWith(SearchTerm(base, k), base)
      && EndsWith(SearchTerm(base, k), OpenAccessFilter)
  {
    var k := Keywords(keywordsParam);
    var t := SearchTerm(base, k);
    assert t == base + (KeywordClause(k) + OpenAccessFilter);
    assert t[..|base|] == base;
    assert t[|t| - |OpenAccessFilter|..] == OpenAccessFilter;
  }

  /** Blank keywords add no clause at all. */
  lemma BlankKeywordsNoClause(base: string, kw: string)
    requires forall i :: 0 <= i < |kw| ==> IsSpace(kw[i])
    ensures SearchTerm(base, Keywords(Some(kw))) == base + OpenAccessFilter
  {
    TrimAllSpace(kw);
  }

  /** An empty id list answers `papers: []` without a summary request. */
  lemma EmptyIdsNoSummary(sdgParam: Option<string>, keywordsParam: Option<string>,
                          baseQuery: int -> string,
                          esearch: string -> Fetched<seq<string>>,
                          esummary: seq<string> -> Fetched<map<string, Summary>>)
    requires SdgAccepted(ParseSdg(sdgParam))
    requires esearch(SearchTerm(baseQuery(ParseSdg(sdgParam).value), Keywords(keywordsParam))) == Delivered([])
    ensures var o := Search(sdgParam, keywordsParam, baseQuery, esearch, esummary);
      o.response == Response(200, PapersBody([])) && |o.calls| == 1
  {
  }

  /** Shaping distributes over concatenation of id lists: papers come out
      in id order. */
  lemma {:induction false} ShapePapersAppend(a: seq<string>, b: seq<string>, result: map<string, Summary>)
    ensures ShapePapers(a + b, result) == ShapePapers(a, result) + ShapePapers(b, result)
  {
    if |a| == 0 {
      assert a + b == b;
    } else {
      assert (a + b)[0] == a[0];
      assert (a + b)[1..] == a[1..] + b;
      ShapePapersAppend(a[1..], b, result);
    }
  }

  /** When every id has a summary, paper `i` is the shaped summary of id
      `i`: nothing is dropped or reordered. */
  lemma {:induction false} ShapePapersAllKnown(ids: seq<string>, result: map<string, Summary>)
    requires forall i :: 0 <= i < |ids| ==> ids[i] in result
    ensures var ps := ShapePapers(ids, result);
      |ps| == |ids| && forall i :: 0 <= i < |ids| ==> ps[i] == ShapePaper(ids[i], result[ids[i]])
  {
    if |ids| > 0 {
      ShapePapersAllKnown(ids[1..], result);
      var ps := ShapePapers(ids, result);
      assert ps == [ShapePaper(ids[0], result[ids[0]])] + ShapePapers(ids[1..], result);
      forall i | 0 <= i < |ids|
        ensures ps[i] == ShapePaper(ids[i], result[ids[i]])
      {
        if i > 0 {
          assert ps[i] == ShapePapers(ids[1..], result)[i - 1];
          assert ids[1..][i - 1] == ids[i];
        }
      }
    }
  }

  /** A paper is listed exactly when some id with a summary shapes to it. */
  lemma {:induction false} ShapePapersMembers(ids: seq<string>, result: map<string, Summary>, p: Paper)
    ensures p in ShapePapers(ids, result) <==>
      exists i :: 0 <= i < |ids| && ids[i] in result && p == ShapePaper(ids[i], result[ids[i]])
  {
    if |ids| > 0 {
      ShapePapersMembers(ids[1..], result, p);
      var head := if ids[0] in result then [ShapePaper(ids[0], result[ids[0]])] else [];
      assert ShapePapers(ids, result) == head + ShapePapers(ids[1..], result);
      if p in ShapePapers(ids, result) {
        if p in head {
          assert ids[0] in result && p == ShapePaper(ids[0], result[ids[0]]);
        } else {
          var i :| 0 <= i < |ids[1..]| && ids[1..][i] in result && p == ShapePaper(ids[1..][i], result[ids[1..][i]]);
          assert ids[i + 1] == ids[1..][i];
        }
      }
      if exists i :: 0 <= i < |ids| && ids[i] in result && p == ShapePaper(ids[i], result[ids[i]]) {
        var i :| 0 <= i < |ids| && ids[i] in result && p == ShapePaper(ids[i], result[ids[i]]);
        if i > 0 {
          assert ids[1..][i - 1] == ids[i];
        }
      }
    }
  }

  /** Ids without a summary are dropped without trace: an id list and
      the same list with unknown ids removed give the same papers. */
  lemma {:induction false} UnknownIdsDropped(ids: seq<string>, extra: string, result: map<string, Summary>)
    requires extra !in result
    ensures ShapePapers(ids + [extra], result) == ShapePapers(ids, result)
    ensures ShapePapers([extra] + ids, result) == ShapePapers(ids, result)
  {
    ShapePapersAppend(ids, [extra], result);
    ShapePapersAppend([extra], ids, result);
    assert ShapePapers([extra], result) == [];
  }
}
