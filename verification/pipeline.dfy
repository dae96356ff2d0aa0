/**
 * The record pipeline of `main`: for every country and each of its categories, the
 * category's battles are crawled, and every battle gets one record with its classified
 * result and its page address. The records are then counted into wins per country.
 */
module Pipeline {
  import opened Wrappers
  import opened Text
  import opened Classifier
  import opened Infobox
  import opened Crawler

  /** A country and the categories whose battles are collected for it. */
  datatype Group = Group(country: string, categories: seq<string>)

  /** The configured countries, in the order they are processed. */
  const CountryCategories: seq<Group> := [
    Group("Sweden", ["Category:Battles_involving_Sweden"]),
    Group("Norway", ["Category:Battles_involving_Norway"]),
    Group("Denmark", ["Category:Battles_involving_Denmark"])
  ]

  /** Fetching a battle's page: its parsed templates, or a failure (network, missing page). */
  datatype FetchResult = Fetched(templates: seq<Template>) | FetchFailed

  /** One row of the raw result table. */
  datatype Record = Record(battle: string, country: string, result: Outcome, sourceUrl: string)

  /** A battle title met while crawling a country's categories. */
  datatype Visit = Visit(country: string, title: string)

  /** What a run produces: the records and, when the table has rows, the wins per country. */
  datatype Report = Report(records: seq<Record>, wins: Option<map<string, nat>>)

  /** The address prefix of a battle's page. */
  const WikiPrefix: string := "https://en.wikipedia.org/wiki/"

  /** The page address of a battle: the prefix, then the title with every space made `_`. */
  function SourceUrl(title: string): (url: string)
    ensures |url| == |WikiPrefix| + |title| && url[..|WikiPrefix|] == WikiPrefix
    ensures forall i :: 0 <= i < |title| ==>
      url[|WikiPrefix| + i] == (if title[i] == ' ' then '_' else title[i])
    ensures ' ' !in url
  {
    WikiPrefix + ReplaceChar(title, ' ', '_')
  }

  /**
   * The record of one battle. A failed fetch is caught and recorded as `Unknown`; the
   * battle, its country and its address are recorded all the same.
   */
  function TitleRecord(v: Visit, fetch: string -> FetchResult): (r: Record)
    ensures r.battle == v.title && r.country == v.country && r.sourceUrl == SourceUrl(v.title)
    ensures fetch(v.title).FetchFailed? ==> r.result == Unknown
  {
    var outcome :=
      match fetch(v.title)
      case FetchFailed => Unknown
      case Fetched(templates) => NormalizeResult(FirstInfoboxResult(templates));
    Record(v.title, v.country, outcome, SourceUrl(v.title))
  }

  /** The visits of a country's battles, in title order. */
  function VisitsOf(country: string, titles: seq<string>): seq<Visit>
  {
    if titles == [] then [] else VisitsOf(country, titles[..|titles| - 1]) + [Visit(country, titles[|titles| - 1])]
  }

  /** A category's titles become one visit each, in title order. */
  lemma {:induction false} VisitsOfEach(country: string, titles: seq<string>)
    ensures |VisitsOf(country, titles)| == |titles|
    ensures forall i :: 0 <= i < |titles| ==> VisitsOf(country, titles)[i] == Visit(country, titles[i])
  {
    if titles != [] {
      VisitsOfEach(country, titles[..|titles| - 1]);
    }
  }

  /** The visits of one country's categories in order; the first category that fails to crawl stops it. */
  function GroupVisits(country: string, categories: seq<string>, crawl: string -> seq<PageResponse>)
    : Result<seq<Visit>, CrawlError>
  {
    if categories == [] then
      Success([])
    else
      var cat := categories[|categories| - 1];
      match GroupVisits(country, categories[..|categories| - 1], crawl)
      case Failure(e) => Failure(e)
      case Success(before) =>
        match CategoryMembers(cat, crawl(cat), None)
        case Failure(e) => Failure(e)
        case Success(titles) => Success(before + VisitsOf(country, titles))
  }

  /** The visits of all countries in order; the first category that fails to crawl stops the run. */
  function CrawlAll(groups: seq<Group>, crawl: string -> seq<PageResponse>): Result<seq<Visit>, CrawlError>
  {
    if groups == [] then
      Success([])
    else
      var g := groups[|groups| - 1];
      match CrawlAll(groups[..|groups| - 1], crawl)
      case Failure(e) => Failure(e)
      case Success(before) =>
        match GroupVisits(g.country, g.categories, crawl)
        case Failure(e) => Failure(e)
        case Success(visits) => Success(before + visits)
  }

  /** The records of the given visits: exactly one per visit, in visit order. */
  function RecordsFor(vs: seq<Visit>, fetch: string -> FetchResult): seq<Record>
  {
    if vs == [] then [] else RecordsFor(vs[..|vs| - 1], fetch) + [TitleRecord(vs[|vs| - 1], fetch)]
  }

  /** There is exactly one record per visit, in visit order. */
  lemma {:induction false} RecordsForEach(vs: seq<Visit>, fetch: string -> FetchResult)
    ensures |RecordsFor(vs, fetch)| == |vs|
    ensures forall i :: 0 <= i < |vs| ==> RecordsFor(vs, fetch)[i] == TitleRecord(vs[i], fetch)
  {
    if vs != [] {
      RecordsForEach(vs[..|vs| - 1], fetch);
    }
  }

  /** The number of records of `country` whose result is a win. */
  function WinsOf(rs: seq<Record>, country: string): nat
  {
    if rs == [] then 0
    else WinsOf(rs[..|rs| - 1], country) + (if rs[|rs| - 1].country == country && rs[|rs| - 1].result == Win then 1 else 0)
  }

  /**
   * The wins per country that `main` groups out of the records: a country appears
   * exactly when it has a winning record, with its number of winning records.
   */
  function WinCounts(rs: seq<Record>): (m: map<string, nat>)
    ensures forall c :: c in m <==> WinsOf(rs, c) > 0
    ensures forall c :: c in m ==> m[c] == WinsOf(rs, c)
  {
    if rs == [] then
      map[]
    else
      var m := WinCounts(rs[..|rs| - 1]);
      var last := rs[|rs| - 1];
      if last.result == Win then
        m[last.country := (if last.country in m then m[last.country] else 0) + 1]
      else
        m
  }

  /**
   * The win table: an empty record table has no `result` column, so the win count
   * raises and is not written; otherwise the wins per country.
   */
  function WinTable(rs: seq<Record>): (t: Option<map<string, nat>>)
    ensures t.None? <==> rs == []
    ensures t.Some? ==> forall c :: c in t.value <==> WinsOf(rs, c) > 0
  {
    if rs == [] then None else Some(WinCounts(rs))
  }

  /** What `main` produces: a crawl failure ends the run; otherwise the records and the win table. */
  function RunSpec(groups: seq<Group>, crawl: string -> seq<PageResponse>, fetch: string -> FetchResult)
    : (r: Result<Report, CrawlError>)
    ensures r.Success? <==> CrawlAll(groups, crawl).Success?
    ensures r.Success? ==> |r.value.records| == |CrawlAll(groups, crawl).value|
    ensures r.Success? ==> (r.value.wins.None? <==> r.value.records == [])
  {
    match CrawlAll(groups, crawl)
    case Failure(e) => Failure(e)
    case Success(vs) =>
      var rs := RecordsFor(vs, fetch);
      RecordsForEach(vs, fetch);
      Success(Report(rs, WinTable(rs)))
  }

  /** Once a prefix of a country's categories fails to crawl, the whole country fails with that error. */
  lemma {:induction false} GroupFailurePersists(
    country: string, categories: seq<string>, crawl: string -> seq<PageResponse>, k: int)
    requires 0 <= k <= |categories|
    requires GroupVisits(country, categories[..k], crawl).Failure?
    ensures GroupVisits(country, categories, crawl) == GroupVisits(country, categories[..k], crawl)
  {
    if k < |categories| {
      var init := categories[..|categories| - 1];
      assert init[..k] == categories[..k];
      GroupFailurePersists(country, init, crawl, k);
    } else {
      assert categories[..k] == categories;
    }
  }

  /** Once a prefix of the countries fails to crawl, the whole run fails with that error. */
  lemma {:induction false} CrawlFailurePersists(groups: seq<Group>, crawl: string -> seq<PageResponse>, k: int)
    requires 0 <= k <= |groups|
    requires CrawlAll(groups[..k], crawl).Failure?
    ensures CrawlAll(groups, crawl) == CrawlAll(groups[..k], crawl)
  {
    if k < |groups| {
      var init := groups[..|groups| - 1];
      assert init[..k] == groups[..k];
      CrawlFailurePersists(init, crawl, k);
    } else {
      assert groups[..k] == groups;
    }
  }

  /** A country crawls successfully exactly when each of its categories does. */
  lemma {:induction false} GroupSucceedsIff(country: string, categories: seq<string>, crawl: string -> seq<PageResponse>)
    ensures GroupVisits(country, categories, crawl).Success? <==>
      forall c :: 0 <= c < |categories| ==> CategoryMembers(categories[c], crawl(categories[c]), None).Success?
  {
    if categories != [] {
      var init := categories[..|categories| - 1];
      GroupSucceedsIff(country, init, crawl);
      assert forall c :: 0 <= c < |init| ==> init[c] == categories[c];
    }
  }

  /** A run crawls successfully exactly when every category of every country does. */
  lemma {:induction false} CrawlSucceedsIff(groups: seq<Group>, crawl: string -> seq<PageResponse>)
    ensures CrawlAll(groups, crawl).Success? <==>
      forall g, c :: 0 <= g < |groups| && 0 <= c < |groups[g].categories| ==>
        CategoryMembers(groups[g].categories[c], crawl(groups[g].categories[c]), None).Success?
  {
    if groups != [] {
      var init := groups[..|groups| - 1];
      var last := groups[|groups| - 1];
      CrawlSucceedsIff(init, crawl);
      GroupSucceedsIff(last.country, last.categories, crawl);
      assert forall g :: 0 <= g < |init| ==> init[g] == groups[g];
    }
  }

  /**
   * Every visited battle gets exactly one record, in visiting order, with its title, its
   * country and its address; a battle whose fetch failed is kept with result `Unknown`.
   */
  lemma OneRecordPerBattle(groups: seq<Group>, crawl: string -> seq<PageResponse>, fetch: string -> FetchResult)
    requires RunSpec(groups, crawl, fetch).Success?
    ensures CrawlAll(groups, crawl).Success?
    ensures var vs := CrawlAll(groups, crawl).value;
      var rs := RunSpec(groups, crawl, fetch).value.records;
      |rs| == |vs| &&
      forall i :: 0 <= i < |vs| ==>
        rs[i].battle == vs[i].title && rs[i].country == vs[i].country &&
        rs[i].sourceUrl == SourceUrl(vs[i].title) &&
        (fetch(vs[i].title).FetchFailed? ==> rs[i].result == Unknown) &&
        (fetch(vs[i].title).Fetched? ==>
          rs[i].result == NormalizeResult(FirstInfoboxResult(fetch(vs[i].title).templates)))
  {
    RecordsForEach(CrawlAll(groups, crawl).value, fetch);
  }

  /** Every visit of a country's crawl belongs to that country. */
  lemma {:induction false} GroupVisitsCountry(
    country: string, categories: seq<string>, crawl: string -> seq<PageResponse>)
    requires GroupVisits(country, categories, crawl).Success?
    ensures forall v :: v in GroupVisits(country, categories, crawl).value ==> v.country == country
  {
    if categories != [] {
      var cat := categories[|categories| - 1];
      GroupVisitsCountry(country, categories[..|categories| - 1], crawl);
      VisitsOfEach(country, CategoryMembers(cat, crawl(cat), None).value);
    }
  }

  /** Every visit of a run belongs to one of the configured countries. */
  lemma {:induction false} CrawlAllCountries(groups: seq<Group>, crawl: string -> seq<PageResponse>)
    requires CrawlAll(groups, crawl).Success?
    ensures forall v :: v in CrawlAll(groups, crawl).value ==>
      exists g :: 0 <= g < |groups| && groups[g].country == v.country
  {
    if groups != [] {
      var init := groups[..|groups| - 1];
      var last := groups[|groups| - 1];
      CrawlAllCountries(init, crawl);
      GroupVisitsCountry(last.country, last.categories, crawl);
      assert forall g :: 0 <= g < |init| ==> init[g] == groups[g];
    }
  }

  /** Every record of a successful run carries one of the configured countries. */
  lemma RecordCountriesConfigured(groups: seq<Group>, crawl: string -> seq<PageResponse>, fetch: string -> FetchResult)
    requires RunSpec(groups, crawl, fetch).Success?
    ensures forall r :: r in RunSpec(groups, crawl, fetch).value.records ==>
      exists g :: 0 <= g < |groups| && groups[g].country == r.country
  {
    var vs := CrawlAll(groups, crawl).value;
    CrawlAllCountries(groups, crawl);
    RecordsForEach(vs, fetch);
    forall r | r in RunSpec(groups, crawl, fetch).value.records
      ensures exists g :: 0 <= g < |groups| && groups[g].country == r.country
    {
      var i :| 0 <= i < |vs| && RecordsFor(vs, fetch)[i] == r;
      assert vs[i] in vs;
    }
  }

  /** With the script's configuration, every record is of Sweden, Norway or Denmark. */
  lemma ScandinavianRecordsOnly(crawl: string -> seq<PageResponse>, fetch: string -> FetchResult)
    requires RunSpec(CountryCategories, crawl, fetch).Success?
    ensures forall r :: r in RunSpec(CountryCategories, crawl, fetch).value.records ==>
      r.country in {"Sweden", "Norway", "Denmark"}
  {
    RecordCountriesConfigured(CountryCategories, crawl, fetch);
  }

  /**
   * Concatenation of visit sequences is associative. Stated apart from `Run`, whose
   * context makes the inline sequence equality expensive to prove.
   */
  lemma AppendAssociative(a: seq<Visit>, b: seq<Visit>, c: seq<Visit>)
    ensures (a + b) + c == a + (b + c)
  {
  }

  /** Appending a visit appends its record. */
  lemma RecordsForSnoc(vs: seq<Visit>, v: Visit, fetch: string -> FetchResult)
    ensures RecordsFor(vs + [v], fetch) == RecordsFor(vs, fetch) + [TitleRecord(v, fetch)]
  {
    assert (vs + [v])[..|vs|] == vs;
  }

  /** One more title of a category is one more visit. */
  lemma VisitsOfSnoc(country: string, titles: seq<string>, t: int)
    requires 0 <= t < |titles|
    ensures VisitsOf(country, titles[..t + 1]) == VisitsOf(country, titles[..t]) + [Visit(country, titles[t])]
  {
    assert titles[..t + 1][..t] == titles[..t];
  }

  /** Crawling one more category of a country appends that category's visits. */
  lemma GroupVisitsStep(country: string, categories: seq<string>, crawl: string -> seq<PageResponse>, c: int)
    requires 0 <= c < |categories|
    requires GroupVisits(country, categories[..c], crawl).Success?
    requires CategoryMembers(categories[c], crawl(categories[c]), None).Success?
    ensures GroupVisits(country, categories[..c + 1], crawl) ==
      Success(GroupVisits(country, categories[..c], crawl).value +
        VisitsOf(country, CategoryMembers(categories[c], crawl(categories[c]), None).value))
  {
    assert categories[..c + 1][..c] == categories[..c];
  }

  /** Crawling one more country appends that country's visits. */
  lemma CrawlAllStep(groups: seq<Group>, crawl: string -> seq<PageResponse>, g: int)
    requires 0 <= g < |groups|
    requires CrawlAll(groups[..g], crawl).Success?
    requires GroupVisits(groups[g].country, groups[g].categories, crawl).Success?
    ensures CrawlAll(groups[..g + 1], crawl) ==
      Success(CrawlAll(groups[..g], crawl).value + GroupVisits(groups[g].country, groups[g].categories, crawl).value)
  {
    assert groups[..g + 1][..g] == groups[..g];
  }

  /** A category that fails to crawl ends the run with its error. */
  lemma CategoryFailureEndsRun(groups: seq<Group>, crawl: string -> seq<PageResponse>, g: int, c: int)
    requires 0 <= g < |groups| && 0 <= c < |groups[g].categories|
    requires CrawlAll(groups[..g], crawl).Success?
    requires GroupVisits(groups[g].country, groups[g].categories[..c], crawl).Success?
    requires CategoryMembers(groups[g].categories[c], crawl(groups[g].categories[c]), None).Failure?
    ensures CrawlAll(groups, crawl) ==
      Failure(CategoryMembers(groups[g].categories[c], crawl(groups[g].categories[c]), None).error)
  {
    var country, categories := groups[g].country, groups[g].categories;
    var e := CategoryMembers(categories[c], crawl(categories[c]), None).error;
    assert GroupVisits(country, categories[..c + 1], crawl) == Failure(e) by {
      var upto := categories[..c + 1];
      assert upto[..|upto| - 1] == categories[..c] && upto[|upto| - 1] == categories[c];
    }
    GroupFailurePersists(country, categories, crawl, c + 1);
    assert CrawlAll(groups[..g + 1], crawl) == Failure(e) by {
      var upto := groups[..g + 1];
      assert upto[..|upto| - 1] == groups[..g] && upto[|upto| - 1] == groups[g];
    }
    CrawlFailurePersists(groups, crawl, g + 1);
  }

  /**
   * The body of the title loop: fetch the page, select the infobox result and classify
   * it; any failure of the fetch is caught and becomes `Unknown`.
   */
  method ProcessTitle(country: string, title: string, fetch: string -> FetchResult) returns (record: Record)
    ensures record == TitleRecord(Visit(country, title), fetch)
  {
    var norm: Outcome;
    match fetch(title) {
      case FetchFailed =>
        norm := Unknown;
      case Fetched(templates) =>
        var result := ParseInfoboxResult(templates);
        norm := NormalizeResult(result);
    }
    record := Record(title, country, norm, SourceUrl(title));
  }

  /**
   * `main`: the nested country, category and title loops append one record per title to
   * `records`; a crawl failure escapes the loops and ends the run.
   */
  method Run(groups: seq<Group>, crawl: string -> seq<PageResponse>, fetch: string -> FetchResult)
    returns (out: Result<Report, CrawlError>)
    ensures out == RunSpec(groups, crawl, fetch)
  {
    var records: seq<Record> := [];
    for g := 0 to |groups|
      invariant CrawlAll(groups[..g], crawl).Success?
      invariant records == RecordsFor(CrawlAll(groups[..g], crawl).value, fetch)
    {
      var country := groups[g].country;
      var categories := groups[g].categories;
      ghost var done := CrawlAll(groups[..g], crawl).value;
      assert categories[..0] == [] && done + [] == done;
      for c := 0 to |categories|
        invariant GroupVisits(country, categories[..c], crawl).Success?
        invariant records == RecordsFor(done + GroupVisits(country, categories[..c], crawl).value, fetch)
      {
        var cat := categories[c];
        var members := CategoryMembers(cat, crawl(cat), None);
        if members.Failure? {
          CategoryFailureEndsRun(groups, crawl, g, c);
          return Failure(members.error);
        }
        var titles := members.value;
        ghost var before := done + GroupVisits(country, categories[..c], crawl).value;
        assert titles[..0] == [] && VisitsOf(country, []) == [] && before + [] == before;
        for t := 0 to |titles|
          invariant records == RecordsFor(before + VisitsOf(country, titles[..t]), fetch)
        {
          var title := titles[t];
          var record := ProcessTitle(country, title, fetch);
          ghost var v := Visit(country, title);
          VisitsOfSnoc(country, titles, t);
          assert before + VisitsOf(country, titles[..t + 1]) == (before + VisitsOf(country, titles[..t])) + [v];
          RecordsForSnoc(before + VisitsOf(country, titles[..t]), v, fetch);
          records := records + [record];
        }
        assert titles[..|titles|] == titles;
        GroupVisitsStep(country, categories, crawl, c);
        AppendAssociative(done, GroupVisits(country, categories[..c], crawl).value, VisitsOf(country, titles));
      }
      assert categories[..|categories|] == categories;
      CrawlAllStep(groups, crawl, g);
    }
    assert groups[..|groups|] == groups;
    return Success(Report(records, WinTable(records)));
  }
}
