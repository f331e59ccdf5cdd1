/** `executable/ResultSem.py`: one student's result for one semester. The
    exam codes of the semester are tried in order, each with its regular and
    its revaluation page; pages accumulate into one result, and the search
    stops at the first page after which the student is identified and has
    passed every subject collected so far. */
module ResultSem {
  import opened Wrappers
  import opened Directory
  import opened Roll
  import opened Pages
  import Codes

  /** The grades that mean a subject was not passed. */
  const FailingGrades: set<string> := {"F", "Ab"}

  /** `all_subjects_passed`: no collected subject has a failing grade (true
      when none has been collected). */
  predicate AllPassed(result: map<string, Subject>)
  {
    forall code | code in result :: result[code].grade !in FailingGrades
  }

  /** `all_subjects_passed` as the source computes it, one subject at a
      time. */
  method AllSubjectsPassed(result: map<string, Subject>) returns (passed: bool)
    ensures passed <==> AllPassed(result)
  {
    var pending := result.Keys;
    passed := true;
    while pending != {}
      invariant pending <= result.Keys
      invariant passed <==> forall code | code in result.Keys - pending :: result[code].grade !in FailingGrades
      decreases |pending|
    {
      var code :| code in pending;
      if result[code].grade in FailingGrades {
        passed := false;
      }
      pending := pending - {code};
    }
  }

  /** `fetch_url`: the body of a 200 answer, or nothing (a failed request, a
      different status, or an empty body all count as nothing). */
  function Content(resp: Response): (r: Option<Page>)
    ensures r.Some? <==> resp.Answer? && resp.ok && resp.body.Some?
    ensures r.Some? ==> r.value == resp.body.value
  {
    if resp.Answer? && resp.ok then resp.body else None
  }

  /** `scrape_results`: the "no result" form leaves the result alone;
      otherwise the details table is merged and every row under the results
      table's header is stored under its subject code, read at fixed
      positions. A missing table, row or cell raises. */
  function Scrape(acc: SemAcc, page: Page): (r: Result<SemAcc>)
    ensures page.NoResultForm? ==> r == Ok(acc)
    ensures page.Markup? ==>
              (r.Ok? <==> && ReadStudent(page.tables).Some? && |page.tables| >= 2
                          && forall i :: 0 <= i < |Body(page.tables[1])| ==> ParseRow(Positional, Body(page.tables[1])[i]).Some?)
    ensures page.Markup? && r.Ok? ==> r.value.details == MergeStudent(acc.details, ReadStudent(page.tables).value)
    ensures r.Ok? ==> acc.result.Keys <= r.value.result.Keys
  {
    match page
    case NoResultForm => Ok(acc)
    case Markup(tables) =>
      match ReadStudent(tables)
      case None => Raised
      case Some(st) =>
        var details := MergeStudent(acc.details, st);
        if |tables| < 2 then Raised
        else
          match FoldRows(acc.result, Body(tables[1]), Positional)
          case None => Raised
          case Some(result) => Ok(SemAcc(details, result))
  }

  /** After a successful scrape each subject code holds what the last row
      naming it said, and codes the page does not name keep their subject. */
  lemma ScrapeSubjects(acc: SemAcc, tables: seq<Table>, code: string)
    requires Scrape(acc, Markup(tables)).Ok?
    ensures var r := Scrape(acc, Markup(tables)).value.result;
            match LastWrite(Body(tables[1]), Positional, code)
            case Some(s) => code in r && r[code] == s
            case None => (code in r <==> code in acc.result) && (code in acc.result ==> r[code] == acc.result[code])
  {
    FoldLastWrite(acc.result, Body(tables[1]), Positional, code);
  }

  /** One request of the loop: fetch it and, if there is content, scrape it. */
  function Step(acc: SemAcc, req: Request, fetch: Request -> Response): Result<SemAcc>
  {
    match Content(fetch(req))
    case None => Ok(acc)
    case Some(page) => Scrape(acc, page)
  }

  /** The early-exit test after a request: it returned content, the
      student is identified, and nothing collected so far is failed. */
  predicate Done(acc: SemAcc, req: Request, fetch: Request -> Response)
  {
    Content(fetch(req)).Some? && HasRollNo(acc.details) && AllPassed(acc.result)
  }

  datatype Stop = Passed | Exhausted

  /** Where the loop ended: the accumulated result, why it stopped, and how
      many requests it issued. */
  datatype Walked = Walked(acc: SemAcc, stop: Stop, used: nat)

  /** The request loop of `get_result`: requests are issued one at a time
      and the loop returns at the first `Done`. An exception while scraping
      escapes. */
  function Walk(acc: SemAcc, reqs: seq<Request>, fetch: Request -> Response): (r: Result<Walked>)
    ensures r.Ok? ==> r.value.used <= |reqs|
    ensures r.Ok? && r.value.stop == Exhausted ==> r.value.used == |reqs|
    ensures r.Ok? && r.value.stop == Passed ==> r.value.used >= 1 && HasRollNo(r.value.acc.details) && AllPassed(r.value.acc.result)
    decreases |reqs|
  {
    if reqs == [] then Ok(Walked(acc, Exhausted, 0))
    else
      match Step(acc, reqs[0], fetch)
      case Raised => Raised
      case Ok(next) =>
        if Done(next, reqs[0], fetch) then Ok(Walked(next, Passed, 1))
        else
          match Walk(next, reqs[1..], fetch)
          case Raised => Raised
          case Ok(w) => Ok(w.(used := w.used + 1))
  }

  /** Reference: every request scraped in order, with no early exit. */
  function Replay(acc: SemAcc, reqs: seq<Request>, fetch: Request -> Response): Result<SemAcc>
    decreases |reqs|
  {
    if reqs == [] then Ok(acc)
    else
      match Step(acc, reqs[0], fetch)
      case Raised => Raised
      case Ok(next) => Replay(next, reqs[1..], fetch)
  }

  /** The exit test holds right after the `k`-th request of a full replay. */
  predicate DoneAfter(acc: SemAcc, reqs: seq<Request>, fetch: Request -> Response, k: nat)
    requires k < |reqs|
  {
    var r := Replay(acc, reqs[..k + 1], fetch);
    r.Ok? && Done(r.value, reqs[k], fetch)
  }

  /** Replaying one more request is one more step. */
  lemma {:induction false} ReplayCons(acc: SemAcc, reqs: seq<Request>, fetch: Request -> Response, k: nat)
    requires 0 < k <= |reqs|
    ensures Replay(acc, reqs[..k], fetch) ==
            match Step(acc, reqs[0], fetch)
            case Raised => Raised
            case Ok(next) => Replay(next, reqs[1..][..k - 1], fetch)
  {
    assert reqs[..k][1..] == reqs[1..][..k - 1];
  }

  /** A walk that ends stops exactly at the first request after which the
      exit test holds, its result is the replay of the requests it issued,
      and a walk that runs out never met the exit test. */
  lemma {:induction false} WalkIsFirstExit(acc: SemAcc, reqs: seq<Request>, fetch: Request -> Response)
    requires Walk(acc, reqs, fetch).Ok?
    ensures var w := Walk(acc, reqs, fetch).value;
            && Replay(acc, reqs[..w.used], fetch) == Ok(w.acc)
            && (w.stop == Passed ==> DoneAfter(acc, reqs, fetch, w.used - 1))
            && (forall k :: 0 <= k < |reqs| && (w.stop == Exhausted || k < w.used - 1) ==> !DoneAfter(acc, reqs, fetch, k))
    decreases |reqs|
  {
    var w := Walk(acc, reqs, fetch).value;
    if reqs == [] {
      assert reqs[..0] == [];
    } else {
      var next := Step(acc, reqs[0], fetch).value;
      ReplayCons(acc, reqs, fetch, 1);
      assert reqs[1..][..0] == [];
      if Done(next, reqs[0], fetch) {
        assert w.used == 1;
      } else {
        var rest := reqs[1..];
        var v := Walk(next, rest, fetch).value;
        WalkIsFirstExit(next, rest, fetch);
        ReplayCons(acc, reqs, fetch, w.used);
        forall k | 0 <= k < |reqs| && (w.stop == Exhausted || k < w.used - 1)
          ensures !DoneAfter(acc, reqs, fetch, k)
        {
          ReplayCons(acc, reqs, fetch, k + 1);
          if k > 0 {
            assert !DoneAfter(next, rest, fetch, k - 1);
            assert reqs[k] == rest[k - 1];
          }
        }
        if w.stop == Passed {
          ReplayCons(acc, reqs, fetch, w.used);
          assert reqs[w.used - 1] == rest[v.used - 1];
        }
      }
    }
  }

  /** The walk never looks at a response it did not request: two networks
      that answer the issued requests alike give the same outcome. */
  lemma {:induction false} WalkIgnoresLaterResponses(acc: SemAcc, reqs: seq<Request>,
                                                     fetch: Request -> Response, other: Request -> Response)
    requires Walk(acc, reqs, fetch).Ok?
    requires forall k :: 0 <= k < Walk(acc, reqs, fetch).value.used ==> other(reqs[k]) == fetch(reqs[k])
    ensures Walk(acc, reqs, other) == Walk(acc, reqs, fetch)
    decreases |reqs|
  {
    if reqs != [] {
      assert other(reqs[0]) == fetch(reqs[0]);
      var next := Step(acc, reqs[0], fetch).value;
      if !Done(next, reqs[0], fetch) {
        var v := Walk(next, reqs[1..], fetch).value;
        forall k | 0 <= k < v.used ensures other(reqs[1..][k]) == fetch(reqs[1..][k]) {
          assert reqs[1..][k] == reqs[k + 1];
        }
        WalkIgnoresLaterResponses(next, reqs[1..], fetch, other);
      }
    }
  }

  /** An instance: the exam-code directory read at construction, the
      accumulating result, and the cache of finished (roll, semester)
      results. */
  datatype Instance = Instance(codes: Dir, results: SemAcc, cache: map<(string, string), SemAcc>)

  function NewInstance(codes: Dir): Instance
  {
    Instance(codes, EmptyAcc, map[])
  }

  /** What `get_result` returns: a result dict, or the text "No data
      available for this semester". */
  datatype Outcome = Semester(acc: SemAcc) | NoData

  /** A reply and the instance after the call. */
  datatype Answered = Answered(reply: Result<Outcome>, inst: Instance)

  /** The semesters a lateral-entry student did not attend. */
  const FirstYear: set<string> := {"1-1", "1-2"}

  /** The exam codes the directory lists for a classified roll, `None`
      where the degree or regulation is missing and Python raises
      `KeyError`; an unknown semester has none. */
  function CodesFor(dir: Dir, c: Classification, sem: string): (r: Option<seq<string>>)
    ensures r.Some? <==> c.degree in dir && c.regulation in dir[c.degree]
    ensures r.Some? && Get(dir[c.degree][c.regulation], sem).None? ==> r.value == []
    ensures r.Some? && Get(dir[c.degree][c.regulation], sem).Some? ==> r.value == Get(dir[c.degree][c.regulation], sem).value
  {
    if c.degree in dir && c.regulation in dir[c.degree] then
      Some(Get(dir[c.degree][c.regulation], sem).GetOr([]))
    else None
  }

  /** `get_result(roll_number, sem)`. A cached pair is answered from the
      cache. Otherwise the roll is classified and the codes looked up
      (either may raise); a lateral-entry roll asking for a first-year
      semester gets `NoData`; then the codes are walked. If the walk runs out
      without passing, `Roll_No` is overwritten with the invalid-hall-ticket
      sentinel, whatever subjects were found. A finished result is cached;
      `NoData` is not. */
  function GetResult(inst: Instance, roll: string, sem: string, fetch: Request -> Response): (r: Answered)
    ensures (roll, sem) in inst.cache ==> r == Answered(Ok(Semester(inst.cache[(roll, sem)])), inst)
    ensures (roll, sem) !in inst.cache && Classify(roll).Raised? ==> r.reply.Raised?
    ensures (roll, sem) !in inst.cache && Classify(roll).Ok? && CodesFor(inst.codes, Classify(roll).value, sem).None?
            ==> r.reply.Raised?
    ensures r.reply == Ok(NoData) <==>
              && (roll, sem) !in inst.cache && Classify(roll).Ok?
              && CodesFor(inst.codes, Classify(roll).value, sem).Some?
              && Classify(roll).value.lateral && sem in FirstYear
    ensures r.reply.Ok? && r.reply.value.Semester? && (roll, sem) !in inst.cache ==>
              && r.inst.cache == inst.cache[(roll, sem) := r.reply.value.acc]
              && r.inst.results == r.reply.value.acc
              && (r.reply.value.acc.details.rollNo == Some(InvalidHallticket) || AllPassed(r.reply.value.acc.result))
    ensures r.reply.Ok? ==> r.inst.codes == inst.codes
    ensures (roll, sem) !in inst.cache && Classify(roll).Ok? && CodesFor(inst.codes, Classify(roll).value, sem).Some?
            && !(Classify(roll).value.lateral && sem in FirstYear) ==>
              var c := Classify(roll).value;
              var w := Walk(inst.results, Requests(c.degree, CodesFor(inst.codes, c, sem).value, roll), fetch);
              && (r.reply.Raised? <==> w.Raised?)
              && (w.Ok? ==> && r.reply.Ok? && r.reply.value.Semester?
                            && r.reply.value.acc.result == w.value.acc.result
                            && r.reply.value.acc.details == if w.value.stop == Passed then w.value.acc.details
                                                            else StampInvalid(w.value.acc.details))
  {
    if (roll, sem) in inst.cache then Answered(Ok(Semester(inst.cache[(roll, sem)])), inst)
    else
      match Classify(roll)
      case Raised => Answered(Raised, inst)
      case Ok(c) =>
        match CodesFor(inst.codes, c, sem)
        case None => Answered(Raised, inst)
        case Some(codes) =>
          if c.lateral && sem in FirstYear then Answered(Ok(NoData), inst)
          else
            match Walk(inst.results, Requests(c.degree, codes, roll), fetch)
            case Raised => Answered(Raised, inst)
            case Ok(w) =>
              var acc := if w.stop == Passed then w.acc else w.acc.(details := StampInvalid(w.acc.details));
              Answered(Ok(Semester(acc)), inst.(results := acc, cache := inst.cache[(roll, sem) := acc]))
  }

  /** Asking again for a (roll, semester) the instance has answered returns
      the same result without touching the network. */
  lemma RepeatIsCached(inst: Instance, roll: string, sem: string, fetch: Request -> Response, later: Request -> Response)
    requires GetResult(inst, roll, sem, fetch).reply.Ok?
    requires GetResult(inst, roll, sem, fetch).reply.value.Semester?
    ensures var first := GetResult(inst, roll, sem, fetch);
            GetResult(first.inst, roll, sem, later) == Answered(first.reply, first.inst)
  {
  }

  /** A lateral-entry roll never gets first-year results, and no request is
      made for them: the reply is the same whatever the network answers. */
  lemma LateralFirstYear(inst: Instance, roll: string, sem: string, fetch: Request -> Response, other: Request -> Response)
    requires (roll, sem) !in inst.cache && Classify(roll).Ok? && Classify(roll).value.lateral && sem in FirstYear
    ensures GetResult(inst, roll, sem, fetch) == GetResult(inst, roll, sem, other)
    ensures GetResult(inst, roll, sem, fetch).reply.Ok? ==> GetResult(inst, roll, sem, fetch).reply == Ok(NoData)
  {
  }

  /** On a directory built from the home page the lookup of a classified
      roll never raises, so a lateral-entry roll's first-year request is
      answered `NoData`. */
  lemma RebuiltDirectoryHasClass(home: seq<seq<Codes.LinkRow>>, roll: string, sem: string)
    requires Codes.ExtractExamCodes(home).Ok? && Classify(roll).Ok?
    ensures CodesFor(Codes.ExtractExamCodes(home).value, Classify(roll).value, sem).Some?
  {
    var c := Classify(roll).value;
    Codes.ExtractedShape(home);
    Codes.ExtractedBTech(home);
    Codes.ExtractedPharmacy(home);
    if c.degree == BTech {
      assert c.regulation in Codes.BTechRegulations;
    } else {
      assert c.regulation in Codes.BPharmacyRegulations;
    }
  }

  /** The fresh instance a request handler makes for one semester. */
  function ForSemester(codes: Dir, roll: string, sem: string, fetch: Request -> Response): (r: Result<Outcome>)
    ensures r.Ok? && r.value.Semester? ==>
              r.value.acc.details.rollNo == Some(InvalidHallticket) || AllPassed(r.value.acc.result)
    ensures Classify(roll).Ok? && CodesFor(codes, Classify(roll).value, sem).Some?
            && !(Classify(roll).value.lateral && sem in FirstYear) ==>
              var c := Classify(roll).value;
              var w := Walk(EmptyAcc, Requests(c.degree, CodesFor(codes, c, sem).value, roll), fetch);
              && (r.Raised? <==> w.Raised?)
              && (w.Ok? ==> && r.Ok? && r.value.Semester?
                            && r.value.acc.result == w.value.acc.result
                            && r.value.acc.details == if w.value.stop == Passed then w.value.acc.details
                                                      else StampInvalid(w.value.acc.details))
  {
    GetResult(NewInstance(codes), roll, sem, fetch).reply
  }

  /** The requests a fresh instance walks for a classified roll. */
  function SemesterRequests(codes: Dir, roll: string, sem: string): seq<Request>
    requires Classify(roll).Ok? && CodesFor(codes, Classify(roll).value, sem).Some?
  {
    var c := Classify(roll).value;
    Requests(c.degree, CodesFor(codes, c, sem).value, roll)
  }

  /** A semester's result against the full replay of its requests: either
      the exit test first holds after some request `k`, and the result is
      the replay up to and including `k`; or it never holds, and the result
      holds every subject the whole replay collected, with `Roll_No`
      overwritten by the invalid-hall-ticket sentinel. */
  lemma ForSemesterReplays(codes: Dir, roll: string, sem: string, fetch: Request -> Response)
    requires Classify(roll).Ok? && CodesFor(codes, Classify(roll).value, sem).Some?
    requires !(Classify(roll).value.lateral && sem in FirstYear)
    requires ForSemester(codes, roll, sem, fetch).Ok?
    ensures var reqs := SemesterRequests(codes, roll, sem);
            var acc := ForSemester(codes, roll, sem, fetch).value.acc;
            || (exists k :: && 0 <= k < |reqs| && DoneAfter(EmptyAcc, reqs, fetch, k)
                            && (forall j :: 0 <= j < k ==> !DoneAfter(EmptyAcc, reqs, fetch, j))
                            && Replay(EmptyAcc, reqs[..k + 1], fetch) == Ok(acc))
            || (&& (forall k :: 0 <= k < |reqs| ==> !DoneAfter(EmptyAcc, reqs, fetch, k))
                && Replay(EmptyAcc, reqs, fetch).Ok?
                && acc.result == Replay(EmptyAcc, reqs, fetch).value.result
                && acc.details == StampInvalid(Replay(EmptyAcc, reqs, fetch).value.details))
  {
    var reqs := SemesterRequests(codes, roll, sem);
    WalkIsFirstExit(EmptyAcc, reqs, fetch);
    var w := Walk(EmptyAcc, reqs, fetch).value;
    if w.stop == Passed {
      assert DoneAfter(EmptyAcc, reqs, fetch, w.used - 1);
    } else {
      assert reqs[..w.used] == reqs;
    }
  }
}
