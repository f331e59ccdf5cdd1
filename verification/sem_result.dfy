/** `executable/SemResult.py`: one semester of one student, with every
    request issued at once and gathered. The module-level result dict is
    reset at the start of each call; for calls that do not overlap, a
    call's reply therefore depends only on its arguments, the directory and
    the network. */
module SemResult {
  import opened Wrappers
  import opened Directory
  import opened Roll
  import opened Pages

  /** `get_result(session, hallticket, sem)`: both variants of every code
      listed for the semester, code-major. The degree and regulation must
      be in the directory (`KeyError` otherwise); a semester that is not
      listed has no codes. Unlike the other two scrapers there is no
      lateral-entry check. */
  function Tasks(dir: Dir, hallticket: string, sem: string): (r: Result<seq<Request>>)
    ensures r.Ok? <==> && Classify(hallticket).Ok?
                       && Classify(hallticket).value.degree in dir
                       && Classify(hallticket).value.regulation in dir[Classify(hallticket).value.degree]
    ensures r.Ok? ==> var c := Classify(hallticket).value;
                      var sm := dir[c.degree][c.regulation];
                      && (forall i :: 0 <= i < |r.value| ==>
                            Listed(sm, sem, r.value[i].examCode) && r.value[i].degree == c.degree
                            && r.value[i].htno == hallticket)
                      && (Get(sm, sem).Some? ==> r.value == Requests(c.degree, Get(sm, sem).value, hallticket))
                      && (Get(sm, sem).None? ==> r.value == [])
  {
    match Classify(hallticket)
    case Raised => Raised
    case Ok(c) =>
      if c.degree !in dir || c.regulation !in dir[c.degree] then Raised
      else
        var sm := dir[c.degree][c.regulation];
        match Get(sm, sem)
        case None => Ok([])
        case Some(codes) =>
          var reqs := Requests(c.degree, codes, hallticket);
          assert forall i :: 0 <= i < |reqs| ==>
                   Listed(sm, sem, reqs[i].examCode) && reqs[i].degree == c.degree && reqs[i].htno == hallticket by {
            forall i | 0 <= i < |reqs|
              ensures Listed(sm, sem, reqs[i].examCode) && reqs[i].degree == c.degree && reqs[i].htno == hallticket
            {
              assert reqs[i] == Request(c.degree, codes[i / 2], Variants[i % 2], hallticket);
            }
          }
          Ok(reqs)
  }

  /** `await response.text()` parsed: the status is not consulted, and an
      empty body is markup without tables. */
  function Text(resp: Response): (r: Page)
    requires resp.Answer?
    ensures resp.body.Some? ==> r == resp.body.value
    ensures resp.body.None? ==> r == Markup([])
  {
    resp.body.GetOr(Markup([]))
  }

  /** `asyncio.gather` over the requests, each body parsed: one request
      that cannot be reached makes the whole gather raise (`None`). */
  function Gather(reqs: seq<Request>, fetch: Request -> Response): (r: Option<seq<Page>>)
    ensures r.None? <==> exists i :: 0 <= i < |reqs| && fetch(reqs[i]).Unreachable?
    ensures r.Some? ==> |r.value| == |reqs| && forall i :: 0 <= i < |reqs| ==> r.value[i] == Text(fetch(reqs[i]))
  {
    if reqs == [] then Some([])
    else if fetch(reqs[0]).Unreachable? then None
    else
      match Gather(reqs[1..], fetch)
      case None =>
        assert exists i :: 1 <= i < |reqs| && fetch(reqs[i]).Unreachable? by {
          var j :| 0 <= j < |reqs[1..]| && fetch(reqs[1..][j]).Unreachable?;
          assert reqs[1..][j] == reqs[j + 1];
        }
        None
      case Some(rest) =>
        assert forall i :: 1 <= i < |reqs| ==> reqs[i] == reqs[1..][i - 1];
        Some([Text(fetch(reqs[0]))] + rest)
  }

  /** The gather never consults a status code. */
  lemma {:induction false} GatherIgnoresStatus(reqs: seq<Request>, fetch: Request -> Response, other: Request -> Response)
    requires forall q :: fetch(q).Unreachable? <==> other(q).Unreachable?
    requires forall q :: fetch(q).Answer? ==> other(q).body == fetch(q).body
    ensures Gather(reqs, other) == Gather(reqs, fetch)
  {
    if reqs != [] {
      GatherIgnoresStatus(reqs[1..], fetch, other);
    }
  }

  /** `scrape_results(result)`: like the other scrapers, but the subjects go
      straight into the flat "Result" dict and optional columns are tested
      with `is not None`. */
  function Scrape(acc: SemAcc, page: Page): (r: Result<SemAcc>)
    ensures page.NoResultForm? ==> r == Ok(acc)
    ensures page.Markup? ==> (r.Ok? <==> Scrapes(page, NotNone))
    ensures page.Markup? && r.Ok? ==> r.value.details == MergeStudent(acc.details, ReadStudent(page.tables).value)
    ensures r.Ok? ==> acc.result.Keys <= r.value.result.Keys
  {
    match page
    case NoResultForm => Ok(acc)
    case Markup(tables) =>
      match ReadStudent(tables)
      case None => Raised
      case Some(st) =>
        var details := MergeStudent(acc.details, st);
        if |tables| < 2 then Raised
        else
          match HeaderReader(tables[1], NotNone)
          case None => Raised
          case Some(reader) =>
            match FoldRows(acc.result, Body(tables[1]), reader)
            case None => Raised
            case Some(result) => Ok(SemAcc(details, result))
  }

  /** The pages scraped in request order; the first exception escapes. */
  function ScrapeAll(acc: SemAcc, pages: seq<Page>): (r: Result<SemAcc>)
    ensures r.Ok? <==> forall i :: 0 <= i < |pages| ==> Scrapes(pages[i], NotNone)
    ensures r.Ok? ==> acc.result.Keys <= r.value.result.Keys
    ensures r.Ok? ==> r.value.details == PagesDetails(acc.details, pages)
    decreases |pages|
  {
    if pages == [] then Ok(acc)
    else
      match Scrape(acc, pages[0])
      case Raised => Raised
      case Ok(next) =>
        assert forall i :: 1 <= i < |pages| ==> pages[i] == pages[1..][i - 1];
        ghost var step := if StudentOf(pages[0]).Some? then MergeStudent(acc.details, StudentOf(pages[0]).value) else acc.details;
        assert PagesDetails(acc.details, pages) == PagesDetails(step, pages[1..]);
        assert next.details == step;
        ScrapeAll(next, pages[1..])
  }

  /** The subject pairs of the pages, page after page, in row order. */
  function AllEntries(pages: seq<Page>): seq<(string, Subject)>
  {
    if pages == [] then [] else PageEntries(pages[0], NotNone) + AllEntries(pages[1..])
  }

  /** After the pages are scraped each subject code holds what the last row
      naming it said, across all pages in order; a code no page names keeps
      what it had. */
  lemma {:induction false} ScrapeAllLastWrite(acc: SemAcc, pages: seq<Page>, code: string)
    requires ScrapeAll(acc, pages).Ok?
    ensures var r := ScrapeAll(acc, pages).value.result;
            match LastEntry(AllEntries(pages), code)
            case Some(s) => code in r && r[code] == s
            case None => (code in r <==> code in acc.result) && (code in acc.result ==> r[code] == acc.result[code])
    decreases |pages|
  {
    if pages != [] {
      var next := Scrape(acc, pages[0]).value;
      ScrapeAllLastWrite(next, pages[1..], code);
      LastEntryAppend(PageEntries(pages[0], NotNone), AllEntries(pages[1..]), code);
      if pages[0].Markup? {
        ScrapeSubjects(acc, pages[0].tables, code);
      }
    }
  }

  /** After a successful scrape each subject code holds what the last row
      naming it said, and codes the page does not name keep their subject. */
  lemma ScrapeSubjects(acc: SemAcc, tables: seq<Table>, code: string)
    requires Scrape(acc, Markup(tables)).Ok?
    ensures var r := Scrape(acc, Markup(tables)).value.result;
            match LastWrite(Body(tables[1]), HeaderReader(tables[1], NotNone).value, code)
            case Some(s) => code in r && r[code] == s
            case None => (code in r <==> code in acc.result) && (code in acc.result ==> r[code] == acc.result[code])
  {
    FoldLastWrite(acc.result, Body(tables[1]), HeaderReader(tables[1], NotNone).value, code);
  }

  /** Scraping pages one batch after another is scraping them all: a
      later page's row for a subject code replaces an earlier page's. */
  lemma {:induction false} ScrapeAllAppend(acc: SemAcc, a: seq<Page>, b: seq<Page>)
    ensures ScrapeAll(acc, a + b) ==
            match ScrapeAll(acc, a)
            case Raised => Raised
            case Ok(mid) => ScrapeAll(mid, b)
    decreases |a|
  {
    if a == [] {
      assert a + b == b;
    } else {
      assert (a + b)[0] == a[0] && (a + b)[1..] == a[1..] + b;
      match Scrape(acc, a[0])
      case Raised =>
      case Ok(next) => ScrapeAllAppend(next, a[1..], b);
    }
  }

  /** Every request is answered, and every answer scrapes. */
  predicate AllServed(reqs: seq<Request>, fetch: Request -> Response)
  {
    forall i :: 0 <= i < |reqs| ==> fetch(reqs[i]).Answer? && Scrapes(Text(fetch(reqs[i])), NotNone)
  }

  /** `get_symbol(hallticket, sem)`: the result dict starts empty, every
      request is gathered (one that cannot be reached makes the gather
      raise), and the pages are scraped in request order. The call succeeds
      exactly when the tasks can be built and every request is answered with
      a page that scrapes; a subject code is then present exactly when some
      page names it, holding the last row naming it, and the details are
      what the pages' identity checks leave from the empty dict. */
  function GetSymbol(dir: Dir, hallticket: string, sem: string, fetch: Request -> Response): (r: Result<SemAcc>)
    ensures r.Ok? <==> Tasks(dir, hallticket, sem).Ok? && AllServed(Tasks(dir, hallticket, sem).value, fetch)
    ensures r.Ok? ==> var pages := Gather(Tasks(dir, hallticket, sem).value, fetch).value;
                      forall code :: && (code in r.value.result <==> LastEntry(AllEntries(pages), code).Some?)
                                     && (code in r.value.result ==> r.value.result[code] == LastEntry(AllEntries(pages), code).value)
    ensures r.Ok? ==> r.value.details == PagesDetails(NoDetails, Gather(Tasks(dir, hallticket, sem).value, fetch).value)
  {
    match Tasks(dir, hallticket, sem)
    case Raised => Raised
    case Ok(reqs) =>
      match Gather(reqs, fetch)
      case None => Raised
      case Some(pages) =>
        var r := ScrapeAll(EmptyAcc, pages);
        if r.Ok? then
          FromEmpty(pages);
          r
        else r
  }

  /** When every gathered page that names a student names the hall ticket
      asked for, the details are the first such page's student, or the
      empty dict when no page names one. */
  lemma SymbolDetails(dir: Dir, hallticket: string, sem: string, fetch: Request -> Response)
    requires GetSymbol(dir, hallticket, sem, fetch).Ok?
    requires var pages := Gather(Tasks(dir, hallticket, sem).value, fetch).value;
             OnlyHtno(pages, hallticket)
    ensures var pages := Gather(Tasks(dir, hallticket, sem).value, fetch).value;
            GetSymbol(dir, hallticket, sem, fetch).value.details ==
              match FirstStudent(pages)
              case None => NoDetails
              case Some(st) => DetailsOf(st)
  {
    var pages := Gather(Tasks(dir, hallticket, sem).value, fetch).value;
    OneStudentDetails(NoDetails, pages, hallticket);
  }

  /** Scraping from the empty result, a code is present exactly when some
      page names it. */
  lemma FromEmpty(pages: seq<Page>)
    requires ScrapeAll(EmptyAcc, pages).Ok?
    ensures var r := ScrapeAll(EmptyAcc, pages).value.result;
            forall code :: && (code in r <==> LastEntry(AllEntries(pages), code).Some?)
                           && (code in r ==> r[code] == LastEntry(AllEntries(pages), code).value)
  {
    forall code {
      ScrapeAllLastWrite(EmptyAcc, pages, code);
    }
  }

  /** The answer's status code is never consulted: a network that answers
      every request with the same bodies under other statuses gives the
      same reply. */
  lemma StatusIgnored(dir: Dir, hallticket: string, sem: string, fetch: Request -> Response, other: Request -> Response)
    requires forall q :: fetch(q).Unreachable? <==> other(q).Unreachable?
    requires forall q :: fetch(q).Answer? ==> other(q).body == fetch(q).body
    ensures GetSymbol(dir, hallticket, sem, other) == GetSymbol(dir, hallticket, sem, fetch)
  {
    if Tasks(dir, hallticket, sem).Ok? {
      GatherIgnoresStatus(Tasks(dir, hallticket, sem).value, fetch, other);
    }
  }

  /** A lateral-entry student asking for a first-year semester whose codes
      are listed gets requests issued, where the other two scrapers answer
      without touching the network. */
  lemma LateralFirstYearRequested(dir: Dir, hallticket: string, sem: string)
    requires Tasks(dir, hallticket, sem).Ok?
    requires Classify(hallticket).value.lateral && sem in {"1-1", "1-2"}
    requires var c := Classify(hallticket).value;
             Get(dir[c.degree][c.regulation], sem).Some? && Get(dir[c.degree][c.regulation], sem).value != []
    ensures |Tasks(dir, hallticket, sem).value| >= 2
  {
  }
}
